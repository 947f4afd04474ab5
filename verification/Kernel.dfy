/** The scheduler's shared state with processes as objects, as in
    kernel/src/global_state.rs, process.rs, syscall.rs and scheduler.rs. Each method is
    the code between two transfers of control and performs one step of the machine. */
module Kernel {
  import opened ProcessMachine
  import opened Wrappers

  class Process {
    const id: nat
    var state: ProcessState
    var parent: Process?

    constructor (id: nat)
      ensures this.id == id && state == Ready && parent == null
    {
      this.id := id;
      state := Ready;
      parent := null;
    }
  }

  class GlobalState {
    var processes: map<nat, Process>
    var pids: seq<nat>
    var currentProcess: Process?
    var lastPid: nat

    /** Whether a process context or the scheduler context is executing. */
    ghost var onCpu: bool

    /** Objects and pids correspond. */
    ghost predicate Linked()
      reads this`processes, this`currentProcess, processes.Values
    {
      && (forall p :: p in processes ==> processes[p].id == p)
      && (forall p :: p in processes && processes[p].parent != null ==>
            processes[p].parent.id in processes && processes[processes[p].parent.id] == processes[p].parent)
      && (currentProcess != null ==> currentProcess.id in processes && processes[currentProcess.id] == currentProcess)
    }

    ghost function ProcOf(o: Process): Proc
      reads o
    {
      Proc(o.state, if o.parent == null then None else Some(o.parent.id))
    }

    ghost function Procs(): map<nat, Proc>
      reads this`processes, processes.Values
    {
      map p | p in processes :: ProcOf(processes[p])
    }

    ghost function View(): Machine
      reads this, processes.Values
    {
      Machine(Procs(), pids, lastPid,
              if currentProcess == null then None else Some(currentProcess.id), onCpu)
    }

    ghost predicate Valid()
      reads this, processes.Values
    {
      Linked() && Inv(View())
    }

    constructor ()
      ensures Valid() && View() == Machine(map[], [], 0, None, false) && processes == map[]
    {
      processes, pids, currentProcess, lastPid, onCpu := map[], [], null, 0, false;
    }

    /** `add_process` and `assign_process`: a ready process without parent. */
    method AssignProcess() returns (child: Process)
      requires Valid()
      modifies this`processes, this`pids, this`lastPid
      ensures Linked() && View() == Assign(old(View()), None)
      ensures fresh(child) && child.id == lastPid && lastPid == old(lastPid) + 1
      ensures processes == old(processes)[lastPid := child] && child.parent == null && child.state == Ready
    {
      hide Inv;
      ghost var procs := Procs();
      NextPidIsNew(View());
      assert lastPid + 1 !in processes by { assert lastPid + 1 !in procs; }
      lastPid := lastPid + 1;
      child := new Process(lastPid);
      processes := processes[lastPid := child];
      pids := pids + [lastPid];
      assert Procs() == procs[lastPid := Proc(Ready, None)];
    }

    /** Moves the queue on until a ready process comes up, at most once around. */
    method FindReadyProcess() returns (r: Option<nat>)
      requires Valid()
      modifies this`pids
      ensures (pids, r) == FindReady(old(View()))
      ensures View() == old(View()).(pids := pids)
    {
      hide Inv;
      hide Search;
      hide Linked;
      ghost var s := View();
      QueueIsKnown(s);
      var turns := |pids|;
      for i := 0 to turns
        invariant |pids| == turns && (forall p :: p in pids ==> p in processes)
        invariant Procs() == s.procs
        invariant Search(s.procs, pids, turns - i) == FindReady(s)
      {
        SearchTurns(s.procs, pids, turns - i);
        var pid := pids[0];
        pids := pids[1..] + [pid];
        var process := processes[pid];
        assert s.procs[pid] == ProcOf(process);
        if process.state == Ready {
          return Some(pid);
        }
      }
      SearchTurns(s.procs, pids, 0);
      return None;
    }

    /** One turn of the scheduler's loop, up to the switch to the process or the wait for
        an interrupt. */
    method Schedule() returns (dispatched: Option<nat>)
      requires Valid() && !onCpu
      modifies this, processes.Values
      ensures Valid() && processes == old(processes)
      ensures var step := if dispatched.Some? then Dispatch else Idle;
              Enabled(old(View()), step) && View() == Next(old(View()), step)
    {
      hide Inv;
      hide Next;
      hide Search;
      hide Linked;
      ghost var s := View();
      dispatched := FindReadyProcess();
      NextKeepsInv(s, if dispatched.Some? then Dispatch else Idle);
      LinkedFrame(s);
      if dispatched.Some? {
        DispatchUnfolds(s);
        var process := processes[dispatched.value];
        SetProcessState(process, Running);
        EnterCpu(process);
      } else {
        IdleUnfolds(s);
      }
    }

    lemma LinkedFrame(s: Machine)
      requires Linked() && Procs() == s.procs
      ensures forall p :: p in s.procs ==> p in processes && processes[p].id == p
    {}

    /** The switch from the scheduler to a process. */
    method EnterCpu(process: Process)
      requires Linked() && process.id in processes && processes[process.id] == process
      modifies this`currentProcess, this`onCpu
      ensures Linked() && View() == old(View()).(current := Some(process.id), onCpu := true)
    {
      currentProcess := process;
      onCpu := true;
    }

    /** The switch back to the scheduler. */
    method LeaveCpu()
      requires Linked()
      modifies this`onCpu
      ensures Linked() && View() == old(View()).(onCpu := false)
    {
      onCpu := false;
    }

    /** A timer interrupt or the yield call. */
    method YieldCpu()
      requires Valid() && onCpu
      modifies this, processes.Values
      ensures Valid() && processes == old(processes)
      ensures Enabled(old(View()), Yield) && View() == Next(old(View()), Yield)
    {
      hide Inv;
      hide Next;
      hide Linked;
      ghost var s := View();
      CurrentIsLinked();
      OnCpuIsKnown(s);
      NextKeepsInv(s, Yield);
      YieldUnfolds(s);
      if currentProcess.state == Running {
        SetProcessState(currentProcess, Ready);
      }
      LeaveCpu();
    }

    /** Sets the state of one process. */
    method SetProcessState(process: Process, st: ProcessState)
      requires Linked() && process.id in processes && processes[process.id] == process
      modifies process`state
      ensures Linked() && View() == old(View()).(procs := SetState(old(View()).procs, process.id, st))
    {
      ghost var s := View();
      process.state := st;
      assert View().procs == SetState(s.procs, process.id, st);
    }

    /** Makes the current process the parent of a new one. */
    method Adopt(child: Process)
      requires Linked() && child.id in processes && processes[child.id] == child && currentProcess != null
      modifies child`parent
      ensures Linked()
      ensures View() == old(View()).(procs := old(View()).procs[child.id := Proc(child.state, old(View()).current)])
    {
      ghost var s := View();
      child.parent := currentProcess;
      assert View().procs == s.procs[child.id := Proc(child.state, s.current)];
    }

    /** The spawn call; with `wait` the caller is marked as waiting but goes on running. */
    method SpawnProcess(imageLoads: bool, wait: bool) returns (r: Option<nat>)
      requires Valid() && onCpu
      modifies this, processes.Values
      ensures Valid()
      ensures var step := if imageLoads then Spawn(wait) else SpawnFails;
              Enabled(old(View()), step) && View() == Next(old(View()), step)
      ensures r == if imageLoads then Some(lastPid) else None
    {
      hide Inv;
      hide Next;
      hide Assign;
      hide Linked;
      ghost var s := View();
      ghost var step := if imageLoads then Spawn(wait) else SpawnFails;
      CurrentIsLinked();
      OnCpuIsKnown(s);
      NextKeepsInv(s, step);
      SpawnUnfolds(s, step);
      var current := currentProcess;
      var child := AssignProcess();
      if !imageLoads {
        return None;
      }
      Adopt(child);
      if wait {
        SetProcessState(current, Waiting(child.id));
      }
      return Some(child.id);
    }

    lemma CurrentIsLinked()
      requires Valid() && onCpu
      ensures currentProcess != null && currentProcess.id in processes && processes[currentProcess.id] == currentProcess
      ensures currentProcess.parent != null ==>
                currentProcess.parent.id in processes && processes[currentProcess.parent.id] == currentProcess.parent
      ensures View().procs[currentProcess.id] == ProcOf(currentProcess)
    {}

    /** The exit call, up to the switch to the scheduler. */
    method ExitProcess(status: int)
      requires Valid() && onCpu
      modifies this, processes.Values
      ensures Valid() && processes == old(processes)
      ensures Enabled(old(View()), Exit(status)) && View() == Next(old(View()), Exit(status))
    {
      hide Inv;
      hide Next;
      hide Linked;
      ghost var s := View();
      CurrentIsLinked();
      OnCpuIsKnown(s);
      NextKeepsInv(s, Exit(status));
      ExitUnfolds(s, status);
      SetProcessState(currentProcess, Terminated(status));
      var parent, pid := currentProcess.parent, currentProcess.id;
      if parent != null {
        assert View().procs[parent.id] == ProcOf(parent);
        if parent.state == Waiting(pid) {
          SetProcessState(parent, Ready);
        }
      }
      LeaveCpu();
    }
  }

  /** The boot sequence, from the new state to the scheduler: the shell is the only
      process, has pid 1 and is ready. */
  method Boot() returns (state: GlobalState, shell: Process)
    ensures state.Valid() && state.View() == Machine(map[1 := Proc(Ready, None)], [1], 1, None, false)
    ensures state.View() == BOOT && state.processes == map[1 := shell] && shell.id == 1
    ensures fresh(state) && fresh(shell)
  {
    hide Inv;
    state := new GlobalState();
    shell := state.AssignProcess();
    BootIsAssign();
    BootIsFine();
    assert state.processes == map[1 := shell];
  }
}
