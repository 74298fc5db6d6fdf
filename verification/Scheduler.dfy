/** The linked process list of process.c, refining the scheduler of SchedulerSpec. */
module Scheduler {
  import opened Prelude
  import opened SchedulerSpec

  /** `process_t`, without name, context and stacks. */
  class Process {
    const pid: nat
    var state: ProcessState
    var next: Process?

    /** How many processes had been created before this one. */
    ghost const serial: nat

    constructor (pid: nat, state: ProcessState, next: Process?, ghost serial: nat)
      ensures this.pid == pid && this.state == state && this.next == next && this.serial == serial
    {
      this.pid := pid;
      this.state := state;
      this.next := next;
      this.serial := serial;
    }
  }

  /** The process at place i of a list, or null behind its end. */
  ghost function At(procs: seq<Process>, i: nat): Process? {
    if i < |procs| then procs[i] else null
  }

  /** The next fields link these processes in this order. */
  ghost predicate Links(procs: seq<Process>)
    reads procs`next
  {
    forall i | 0 <= i < |procs| :: procs[i].next == At(procs, i + 1)
  }

  /** The entries say of each process how manieth it was and its state. */
  ghost predicate Describes(entries: seq<Entry>, procs: seq<Process>)
    reads procs`state
  {
    |entries| == |procs| && forall i | 0 <= i < |procs| :: entries[i] == Entry(procs[i].serial, procs[i].state)
  }

  lemma PrependLinks(p: Process, procs: seq<Process>)
    requires Links(procs) && p.next == At(procs, 0)
    ensures Links([p] + procs)
  {
  }

  lemma AtWithout(procs: seq<Process>, k: nat, i: nat)
    requires k < |procs|
    ensures At(Without(procs, k), i) == At(procs, if i < k then i else i + 1)
  {
    WithoutAt(procs, k, i);
  }

  lemma LinksWithout(procs: seq<Process>, k: nat)
    requires k < |procs|
    requires forall i | 0 <= i < |procs| && i != k - 1 && i != k :: procs[i].next == At(procs, i + 1)
    requires k > 0 ==> procs[k - 1].next == At(procs, k + 1)
    ensures Links(Without(procs, k))
  {
    hide At, Without;
    var rest := Without(procs, k);
    WithoutAt(procs, k, 0);
    forall i | 0 <= i < |rest|
      ensures rest[i].next == At(rest, i + 1)
    {
      WithoutAt(procs, k, i);
      AtWithout(procs, k, i + 1);
    }
  }

  lemma DescribesWithout(entries: seq<Entry>, procs: seq<Process>, k: nat)
    requires k < |procs| && Describes(entries, procs) && Distinct(procs)
    ensures Describes(Without(entries, k), Without(procs, k))
    ensures Distinct(Without(procs, k)) && procs[k] !in Without(procs, k)
    ensures At(Without(procs, k), 0) == if k == 0 then At(procs, 1) else At(procs, 0)
  {
  }

  /** The process at the current place of a scheduler. */
  ghost function CurrentOf(s: Sched, procs: seq<Process>): Process? {
    if s.cur.Some? then At(procs, s.cur.value) else null
  }

  lemma CurrentWithout(s: Sched, procs: seq<Process>, k: nat)
    requires |s.procs| == |procs| && k < |procs| && Distinct(procs)
    requires s.cur.Some? ==> s.cur.value < |procs|
    ensures var t, rest := Terminate(s, k), Without(procs, k);
            && (t.cur.Some? ==> t.cur.value < |rest|)
            && CurrentOf(t, rest) == if CurrentOf(s, procs) == procs[k] then At(rest, 0) else CurrentOf(s, procs)
  {
  }

  lemma SecondOf(entries: seq<Entry>, procs: seq<Process>)
    requires Links(procs) && Describes(entries, procs)
    ensures |entries| == |procs| && (procs != [] ==> procs[0].next == At(procs, 1))
  {
  }

  lemma PidAfter(n: nat)
    ensures Pid(0) == 0 && (Pid(n) + 1) % 0x1_0000_0000 == Pid(n + 1)
  {
  }

  /** The globals of process.c. */
  class Kernel {
    var currentProcess: Process?
    var processList: Process?
    var nextPid: nat
    var tickCount: nat

    /** The processes from `processList` on along `next`. */
    ghost var procs: seq<Process>
    /** The abstract scheduler. */
    ghost var view: Sched

    ghost predicate Valid()
      reads this, procs
    {
      && processList == At(procs, 0) && Links(procs) && Distinct(procs)
      && Describes(view.procs, procs)
      && (view.cur.Some? ==> view.cur.value < |procs|)
      && currentProcess == CurrentOf(view, procs)
      && nextPid == Pid(view.created + 1)
      && (forall p | p in procs :: p.pid == Pid(p.serial))
      && tickCount == view.ticks < TICK_LIMIT
    }

    /** `process_init`. */
    constructor ()
      ensures Valid() && view == INITIAL
      ensures currentProcess != null && currentProcess.pid == 0 && nextPid == 1 && tickCount == 0
      ensures forall p | p in procs :: fresh(p)
    {
      var kernel := new Process(0, Running, null, 0);
      processList := kernel;
      currentProcess := kernel;
      nextPid := 1;
      tickCount := 0;
      procs := [kernel];
      view := INITIAL;
    }

    /** `process_create`. */
    method Create() returns (p: Process)
      requires Valid()
      modifies this
      ensures Valid() && fresh(p) && procs == [p] + old(procs)
      ensures view == SchedulerSpec.Create(old(view))
      ensures p.pid == old(nextPid)
    {
      hide Pid, Links;
      PidAfter(view.created + 1);
      p := new Process(nextPid, Ready, processList, view.created + 1);
      PrependLinks(p, procs);
      nextPid := (nextPid + 1) % PID_LIMIT;
      processList := p;
      procs := [p] + procs;
      view := SchedulerSpec.Create(view);
    }

    /** `process_switch` to the process at the given place. */
    method Switch(next: Process?, ghost place: nat)
      requires Valid()
      requires next != null ==> place < |procs| && procs[place] == next && currentProcess != null
      modifies `currentProcess, `view, procs`state
      ensures Valid()
      ensures view == if next == null then old(view) else SchedulerSpec.Switch(old(view), place)
    {
      hide Pid, Links;
      if next == null || next == currentProcess {
        return;
      }
      currentProcess.state := Ready;
      currentProcess := next;
      currentProcess.state := Running;
      view := SchedulerSpec.Switch(view, place);
    }

    /** `process_schedule`. */
    method Schedule()
      requires Valid() && (procs != [] ==> currentProcess != null)
      modifies `currentProcess, `view, procs`state
      ensures Valid()
      ensures view == SchedulerSpec.Schedule(old(view))
    {
      if processList == null {
        return;
      }
      ghost var cur := view.cur.value;
      ghost var place := After(|procs|, cur);
      var next := currentProcess.next;
      if next == null {
        next := processList;
      }
      while next != currentProcess
        invariant 0 <= place < |procs|
        invariant next == procs[place]
        invariant Search(view.procs, cur, place) == Search(view.procs, cur, After(|procs|, cur))
        decreases Distance(|procs|, place, cur)
      {
        if next.state == Ready {
          break;
        }
        place := After(|procs|, place);
        next := next.next;
        if next == null {
          next := processList;
        }
      }
      if next != currentProcess && next.state == Ready {
        Switch(next, place);
      }
    }

    /** `scheduler_tick`. */
    method Tick()
      requires Valid() && (|procs| >= 2 ==> currentProcess != null)
      modifies `currentProcess, `view, `tickCount, procs`state
      ensures Valid()
      ensures view == SchedulerSpec.Tick(old(view))
    {
      hide Pid, Links, Distinct, Describes, SchedulerSpec.Schedule;
      SecondOf(view.procs, procs);
      tickCount := (tickCount + 1) % TICK_LIMIT;
      view := view.(ticks := tickCount);
      if tickCount % TIME_SLICE == 0 {
        if processList != null && processList.next != null {
          Schedule();
        }
      }
    }

    /** The unlinking of `process_terminate`. */
    method Unlink(process: Process, ghost place: nat)
      requires Valid()
      requires process in procs ==> place < |procs| && procs[place] == process
      modifies `processList, procs`next
      ensures process !in procs ==> Links(procs) && processList == At(procs, 0)
      ensures process in procs ==>
        Links(Without(procs, place)) && processList == At(Without(procs, place), 0)
    {
      hide Describes, Pid;
      if process == processList {
        processList := process.next;
      } else {
        var temp := processList;
        ghost var i := 0;
        while temp != null && temp.next != process
          invariant i <= |procs| && temp == At(procs, i)
          invariant process !in procs[..i] && (temp != null ==> process != temp)
          decreases |procs| - i
        {
          temp := temp.next;
          i := i + 1;
        }
        if temp != null {
          assert place == i + 1;
          temp.next := process.next;
        }
      }
      if process in procs {
        LinksWithout(procs, place);
      }
    }

    /** Takes the process at a place out of the abstract list. */
    ghost method Forget(place: nat)
      requires place < |procs| && Describes(view.procs, procs) && Distinct(procs)
      requires view.cur.Some? ==> view.cur.value < |procs|
      requires forall p | p in procs :: p.pid == Pid(p.serial)
      modifies `procs, `view
      ensures procs == Without(old(procs), place) && view == SchedulerSpec.Terminate(old(view), place)
      ensures Describes(view.procs, procs) && Distinct(procs) && old(procs)[place] !in procs
      ensures view.cur.Some? ==> view.cur.value < |procs|
      ensures view.created == old(view.created) && view.ticks == old(view.ticks)
      ensures forall p | p in procs :: p.pid == Pid(p.serial)
      ensures CurrentOf(view, procs) ==
        if old(CurrentOf(view, procs)) == old(procs)[place] then At(procs, 0) else old(CurrentOf(view, procs))
    {
      hide Pid, CurrentOf;
      DescribesWithout(view.procs, procs, place);
      CurrentWithout(view, procs, place);
      procs := Without(procs, place);
      view := SchedulerSpec.Terminate(view, place);
    }

    /** Brings the abstract list up to date after Unlink. */
    ghost method Settle(process: Process, place: nat)
      requires process in procs ==> place < |procs| && procs[place] == process
      requires Describes(view.procs, procs) && Distinct(procs)
      requires view.cur.Some? ==> view.cur.value < |procs|
      requires forall p | p in procs :: p.pid == Pid(p.serial)
      requires process !in procs ==> Links(procs) && processList == At(procs, 0)
      requires process in procs ==> Links(Without(procs, place)) && processList == At(Without(procs, place), 0)
      modifies `procs, `view
      ensures procs == if process in old(procs) then Without(old(procs), place) else old(procs)
      ensures view == if process in old(procs) then SchedulerSpec.Terminate(old(view), place) else old(view)
      ensures Describes(view.procs, procs) && Distinct(procs) && process !in procs
      ensures view.cur.Some? ==> view.cur.value < |procs|
      ensures view.created == old(view.created) && view.ticks == old(view.ticks)
      ensures forall p | p in procs :: p.pid == Pid(p.serial)
      ensures Links(procs) && processList == At(procs, 0)
      ensures CurrentOf(view, procs) ==
        if old(CurrentOf(view, procs)) == process then At(procs, 0) else old(CurrentOf(view, procs))
    {
      assert CurrentOf(view, procs) != null ==> CurrentOf(view, procs) in procs;
      hide Pid, Links, Describes, Distinct, CurrentOf, Without, SchedulerSpec.Terminate;
      if process in procs {
        Forget(place);
      }
    }

    /** What `process_terminate` does to the list and to the current process. */
    method Detach(process: Process, ghost place: nat)
      requires Valid()
      requires process in procs ==> place < |procs| && procs[place] == process
      modifies `processList, `currentProcess, `procs, `view, procs`next
      ensures Valid() && process !in procs
      ensures procs == if process in old(procs) then Without(old(procs), place) else old(procs)
      ensures view == if process in old(procs) then SchedulerSpec.Terminate(old(view), place) else old(view)
    {
      hide Pid, Links, Describes, Distinct, CurrentOf, Without, SchedulerSpec.Terminate;
      Unlink(process, place);
      Settle(process, place);
      if process == currentProcess {
        currentProcess := processList;
      }
    }

    /** `process_terminate`, of a process in the list or of any other. */
    method Terminate(process: Process?, ghost place: nat)
      requires Valid()
      requires process in procs ==> place < |procs| && procs[place] == process
      modifies `processList, `currentProcess, `procs, `view, procs`next, if process != null then {process} else {}
      ensures Valid()
      ensures procs == if process in old(procs) then Without(old(procs), place) else old(procs)
      ensures view == if process in old(procs) then SchedulerSpec.Terminate(old(view), place) else old(view)
      ensures process != null ==> process.state == Terminated
    {
      hide Pid, Links, Describes, Distinct, CurrentOf, Without, SchedulerSpec.Terminate;
      if process == null {
        return;
      }
      Detach(process, place);
      process.state := ProcessState.Terminated;
    }
  }
}
