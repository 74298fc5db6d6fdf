/** The round-robin scheduler of process.c on values, and what holds over its runs. */
module SchedulerSpec {
  import opened Prelude

  const PID_LIMIT := 0x1_0000_0000
  const TICK_LIMIT := 0x1_0000_0000
  const TIME_SLICE := 10

  datatype ProcessState = Ready | Running | Blocked | Terminated

  /** A process in the list: the how-manieth process created it is, and its state. */
  datatype Entry = Entry(serial: nat, state: ProcessState)

  /** `process_list` from the head on, the place of `current_process` in it, the number
      of processes created, and `tick_count`. */
  datatype Sched = Sched(procs: seq<Entry>, cur: Option<nat>, created: nat, ticks: nat)

  /** What `process_init` sets up: the kernel process, running. */
  const INITIAL := Sched([Entry(0, Running)], Some(0), 0, 0)

  function Pid(serial: nat): nat {
    serial % PID_LIMIT
  }

  // The operations

  function Create(s: Sched): Sched {
    s.(procs := [Entry(s.created + 1, Ready)] + s.procs,
       cur := if s.cur.Some? then Some(s.cur.value + 1) else None,
       created := s.created + 1)
  }

  /** Removes the process at place k; the head takes over from a terminated current process. */
  function Terminate(s: Sched, k: nat): Sched
    requires k < |s.procs|
  {
    s.(procs := s.procs[..k] + s.procs[k + 1 ..],
       cur := if s.cur.None? then None
              else if s.cur.value == k then (if |s.procs| == 1 then None else Some(0))
              else if k < s.cur.value then Some(s.cur.value - 1)
              else s.cur)
  }

  function SetState(procs: seq<Entry>, k: nat, state: ProcessState): seq<Entry>
    requires k < |procs|
  {
    procs[k := procs[k].(state := state)]
  }

  function Switch(s: Sched, next: nat): Sched
    requires next < |s.procs| && s.cur.Some? && s.cur.value < |s.procs|
  {
    if next == s.cur.value then s
    else s.(procs := SetState(SetState(s.procs, s.cur.value, Ready), next, Running), cur := Some(next))
  }

  /** The place after i, with the head after the last. */
  function After(n: nat, i: nat): nat
    requires i < n
  {
    if i + 1 == n then 0 else i + 1
  }

  /** The number of steps from place i forward to place j. */
  function Distance(n: nat, i: nat, j: nat): (d: nat)
    requires i < n && j < n
    ensures d < n && (d == 0 <==> i == j)
  {
    if i <= j then j - i else j - i + n
  }

  /** The search loop of `process_schedule`, from place next on. */
  function Search(procs: seq<Entry>, cur: nat, next: nat): (k: nat)
    requires cur < |procs| && next < |procs|
    ensures k < |procs|
    decreases Distance(|procs|, next, cur)
  {
    if next == cur || procs[next].state == Ready then next
    else Search(procs, cur, After(|procs|, next))
  }

  function Schedule(s: Sched): Sched
    requires s.cur.Some? ==> s.cur.value < |s.procs|
    requires s.procs != [] ==> s.cur.Some?
  {
    if s.procs == [] then s
    else
      var c := s.cur.value;
      Switch(s, Search(s.procs, c, After(|s.procs|, c)))
  }

  function Tick(s: Sched): Sched
    requires s.cur.Some? ==> s.cur.value < |s.procs|
    requires |s.procs| >= 2 ==> s.cur.Some?
  {
    var s' := s.(ticks := (s.ticks + 1) % TICK_LIMIT);
    if s'.ticks % TIME_SLICE == 0 && |s.procs| >= 2 then Schedule(s') else s'
  }

  // Round robin

  /** k is the first ready place after cur in cyclic order, or cur if there is none. */
  ghost predicate IsNextReady(procs: seq<Entry>, cur: nat, k: nat)
    requires cur < |procs|
  {
    && k < |procs|
    && (k != cur ==> procs[k].state == Ready)
    && forall j: nat | j < |procs| && j != cur && procs[j].state == Ready ::
         k != cur && Distance(|procs|, cur, k) <= Distance(|procs|, cur, j)
  }

  lemma {:induction false} SearchFindsNextReady(procs: seq<Entry>, cur: nat, next: nat)
    requires cur < |procs| && next < |procs|
    requires forall j: nat | j < |procs| && j != cur && procs[j].state == Ready ::
               next != cur && Distance(|procs|, cur, next) <= Distance(|procs|, cur, j)
    ensures IsNextReady(procs, cur, Search(procs, cur, next))
    decreases Distance(|procs|, next, cur)
  {
    if next != cur && procs[next].state != Ready {
      SearchFindsNextReady(procs, cur, After(|procs|, next));
    }
  }

  /** The scheduler picks the first ready process in cyclic order. */
  lemma ScheduleIsRoundRobin(s: Sched)
    requires s.cur.Some? && s.cur.value < |s.procs|
    ensures Schedule(s).cur.Some? && IsNextReady(s.procs, s.cur.value, Schedule(s).cur.value)
  {
    SearchFindsNextReady(s.procs, s.cur.value, After(|s.procs|, s.cur.value));
  }

  // Runs

  /** What can happen: a timer tick, a direct call of `process_schedule`, a creation,
      and the termination of the process at a place (of one not listed, if there is
      no such place). */
  datatype Event = TimerTick | Yield | Creation | Termination(place: nat)

  /** None stands for the dereference of a null `current_process`. */
  function Step(s: Sched, e: Event): Option<Sched>
    requires s.cur.Some? ==> s.cur.value < |s.procs|
  {
    match e
    case TimerTick => if |s.procs| >= 2 && s.cur.None? then TickWithoutCurrent(s) else Some(Tick(s))
    case Yield => if s.procs != [] && s.cur.None? then None else Some(Schedule(s))
    case Creation => Some(Create(s))
    case Termination(k) => Some(if k < |s.procs| then Terminate(s, k) else s)
  }

  /** Between two slices the tick handler does not look at the current process. */
  function TickWithoutCurrent(s: Sched): Option<Sched> {
    var ticks := (s.ticks + 1) % TICK_LIMIT;
    if ticks % TIME_SLICE == 0 then None else Some(s.(ticks := ticks))
  }

  /** What every step keeps. */
  ghost predicate Inv(s: Sched) {
    && s.ticks < TICK_LIMIT
    && (s.cur.Some? ==> s.cur.value < |s.procs|)
    && (forall i | 0 <= i < |s.procs| :: s.procs[i].state == Running ==> s.cur == Some(i))
    && (forall i | 0 <= i < |s.procs| :: s.procs[i].state != Terminated)
    && (forall i, j | 0 <= i < j < |s.procs| :: s.procs[i].serial > s.procs[j].serial)
    && (forall i | 0 <= i < |s.procs| :: s.procs[i].serial <= s.created)
  }

  lemma CreatedAt(s: Sched)
    ensures var t := Create(s);
            |t.procs| == |s.procs| + 1 && t.procs[0] == Entry(s.created + 1, Ready) &&
            forall i | 0 < i < |t.procs| :: t.procs[i] == s.procs[i - 1]
    ensures Create(s).created == s.created + 1 && Create(s).ticks == s.ticks
    ensures Create(s).cur == if s.cur.Some? then Some(s.cur.value + 1) else None
  {
  }

  lemma CreateKeepsInv(s: Sched)
    requires Inv(s)
    ensures Inv(Create(s))
  {
    CreatedAt(s);
    hide Create;
  }

  lemma RemovedAt(s: Sched, k: nat)
    requires k < |s.procs|
    ensures var t := Terminate(s, k);
            |t.procs| == |s.procs| - 1 &&
            forall i | 0 <= i < |t.procs| :: t.procs[i] == s.procs[if i < k then i else i + 1]
  {
  }

  lemma TerminateKeepsOrder(s: Sched, k: nat)
    requires Inv(s) && k < |s.procs|
    ensures var t := Terminate(s, k).procs; forall i, j | 0 <= i < j < |t| :: t[i].serial > t[j].serial
  {
    hide Terminate;
    RemovedAt(s, k);
  }

  /** What the invariant says of one process, of the list without the one at place k. */
  lemma TerminateKeepsEntry(s: Sched, k: nat, i: nat)
    requires Inv(s) && k < |s.procs| && i < |s.procs| - 1
    ensures |Terminate(s, k).procs| == |s.procs| - 1
    ensures var t := Terminate(s, k); var e := t.procs[i];
            (e.state == Running ==> t.cur == Some(i)) && e.state != Terminated && e.serial <= t.created
  {
    RemovedAt(s, k);
    assert Terminate(s, k).procs[i] == s.procs[if i < k then i else i + 1];
  }

  lemma TerminateKeepsInv(s: Sched, k: nat)
    requires Inv(s) && k < |s.procs|
    ensures Inv(Terminate(s, k))
  {
    forall i | 0 <= i < |s.procs| - 1
      ensures |Terminate(s, k).procs| == |s.procs| - 1
      ensures var t := Terminate(s, k); var e := t.procs[i];
              (e.state == Running ==> t.cur == Some(i)) && e.state != Terminated && e.serial <= t.created
    {
      TerminateKeepsEntry(s, k, i);
    }
    TerminateKeepsOrder(s, k);
  }

  lemma ScheduleKeepsInv(s: Sched)
    requires Inv(s) && (s.procs != [] ==> s.cur.Some?)
    ensures Inv(Schedule(s))
  {
    if s.procs != [] {
      ScheduleIsRoundRobin(s);
    }
  }

  lemma StepKeepsInv(s: Sched, e: Event)
    requires Inv(s) && Step(s, e).Some?
    ensures Inv(Step(s, e).value)
  {
    match e
    case TimerTick =>
      if |s.procs| >= 2 && s.cur.Some? {
        ScheduleKeepsInv(s.(ticks := (s.ticks + 1) % TICK_LIMIT));
      }
    case Yield => ScheduleKeepsInv(s);
    case Creation => CreateKeepsInv(s);
    case Termination(k) =>
      if k < |s.procs| {
        TerminateKeepsInv(s, k);
      }
  }

  function Run(s: Sched, es: seq<Event>): Option<Sched>
    requires Inv(s)
    decreases es
  {
    if es == [] then Some(s)
    else
      var s' := Step(s, es[0]);
      if s'.None? then None else StepKeepsInv(s, es[0]); Run(s'.value, es[1..])
  }

  /** Whether the list is empty at some time of the run. */
  ghost predicate Empties(s: Sched, es: seq<Event>)
    requires Inv(s)
    decreases es
  {
    || s.procs == []
    || (es != [] && Step(s, es[0]).Some? && (StepKeepsInv(s, es[0]); Empties(Step(s, es[0]).value, es[1..])))
  }

  /** `process_init` starts a run in which, at every time: only the current process can
      be running, none is terminated, and the list holds each process once, the latest
      created first. */
  lemma {:induction false} RunKeepsInv(s: Sched, es: seq<Event>)
    requires Inv(s) && Run(s, es).Some?
    ensures Inv(Run(s, es).value)
    decreases es
  {
    if es != [] {
      StepKeepsInv(s, es[0]);
      RunKeepsInv(Step(s, es[0]).value, es[1..]);
    }
  }

  /** `current_process` is null exactly when it was so at the start or the list has been
      empty at some time; in particular creations never set it again. */
  lemma {:induction false} CurrentIsNullIff(s: Sched, es: seq<Event>)
    requires Inv(s) && Run(s, es).Some?
    ensures Run(s, es).value.cur.None? <==> s.cur.None? || Empties(s, es)
    decreases es
  {
    if es != [] {
      StepKeepsInv(s, es[0]);
      CurrentIsNullIff(Step(s, es[0]).value, es[1..]);
    }
  }

  /** A run dereferences a null current process only after the list has been empty. */
  lemma {:induction false} NoNullDereference(s: Sched, es: seq<Event>)
    requires Inv(s) && s.cur.Some? && !Empties(s, es)
    ensures Run(s, es).Some?
    decreases es
  {
    if es != [] {
      StepKeepsInv(s, es[0]);
      NoNullDereference(Step(s, es[0]).value, es[1..]);
    }
  }

  /** How many processes are listed, the tick count, and whether the list has been empty. */
  datatype Counts = Counts(listed: nat, ticks: nat, lost: bool)

  function CountsOf(s: Sched): Counts {
    Counts(|s.procs|, s.ticks, s.cur.None?)
  }

  function NextCounts(c: Counts, e: Event): Counts {
    match e
    case TimerTick => c.(ticks := (c.ticks + 1) % TICK_LIMIT)
    case Yield => c
    case Creation => c.(listed := c.listed + 1)
    case Termination(k) => if k < c.listed then c.(listed := c.listed - 1, lost := c.lost || c.listed == 1) else c
  }

  /** A direct call dereferences the lost pointer if any process is listed, and a tick if it
      ends a slice and two are. */
  predicate Fails(c: Counts, e: Event) {
    match e
    case TimerTick => c.lost && c.listed >= 2 && (c.ticks + 1) % TICK_LIMIT % TIME_SLICE == 0
    case Yield => c.lost && c.listed > 0
    case _ => false
  }

  predicate Crashes(c: Counts, es: seq<Event>)
    decreases es
  {
    es != [] && (Fails(c, es[0]) || Crashes(NextCounts(c, es[0]), es[1..]))
  }

  lemma ScheduleKeepsCounts(s: Sched)
    requires Inv(s) && (s.procs != [] ==> s.cur.Some?)
    ensures CountsOf(Schedule(s)) == CountsOf(s)
  {
    hide Search;
  }

  /** What a step does to the counts, and when it fails. */
  lemma StepCounts(s: Sched, e: Event)
    requires Inv(s)
    ensures Step(s, e).None? <==> Fails(CountsOf(s), e)
    ensures Step(s, e).Some? ==> CountsOf(Step(s, e).value) == NextCounts(CountsOf(s), e)
  {
    match e
    case TimerTick =>
      if s.cur.Some? {
        ScheduleKeepsCounts(s.(ticks := (s.ticks + 1) % TICK_LIMIT));
      }
      hide Inv, Schedule;
    case Yield =>
      if s.procs != [] && s.cur.Some? {
        ScheduleKeepsCounts(s);
      }
    case Creation =>
    case Termination(_) =>
  }

  /** A run dereferences a null current process exactly if the number of processes, the
      ticks and the emptying of the list say so. */
  lemma {:induction false} NullDereferenceIff(s: Sched, es: seq<Event>)
    requires Inv(s)
    ensures Run(s, es).None? <==> Crashes(CountsOf(s), es)
    decreases es
  {
    if es != [] {
      hide Inv, Step, CountsOf, NextCounts, Fails;
      StepCounts(s, es[0]);
      if Step(s, es[0]).Some? {
        StepKeepsInv(s, es[0]);
        NullDereferenceIff(Step(s, es[0]).value, es[1..]);
      }
    }
  }

  /** It does happen: the last process ends, two more are created, and a slice ends. */
  lemma NullDereferenceHappens()
    ensures Inv(INITIAL)
    ensures Run(INITIAL, [Termination(0), Creation, Yield]) == None
  {
    var s1 := Step(INITIAL, Termination(0)).value;
    assert s1 == Sched([], None, 0, 0);
    var s2 := Step(s1, Creation).value;
    assert [Termination(0), Creation, Yield][1..] == [Creation, Yield];
    assert [Creation, Yield][1..] == [Yield];
    assert Run(s2, [Yield]) == None;
    assert Run(s1, [Creation, Yield]) == None;
  }

  lemma PidsDiffer(s: Sched, i: nat, j: nat)
    requires Inv(s) && s.created < PID_LIMIT && i < j < |s.procs|
    ensures Pid(s.procs[i].serial) > Pid(s.procs[j].serial)
  {
    assert s.procs[j].serial < s.procs[i].serial <= s.created;
  }

  /** In every run that creates fewer than 2^32 processes, pids strictly decrease along the list. */
  lemma PidsDecrease(es: seq<Event>, i: nat, j: nat)
    requires Run(INITIAL, es).Some? && Run(INITIAL, es).value.created < PID_LIMIT
    requires i < j < |Run(INITIAL, es).value.procs|
    ensures var procs := Run(INITIAL, es).value.procs; Pid(procs[i].serial) > Pid(procs[j].serial)
  {
    hide Run, Pid;
    RunKeepsInv(INITIAL, es);
    hide Inv;
    PidsDiffer(Run(INITIAL, es).value, i, j);
  }

  // Bounded waiting

  /** A ready process at place p, not yet current, in a list with a current process. */
  ghost predicate Waits(s: Sched, p: nat) {
    Inv(s) && s.cur.Some? && p < |s.procs| && p != s.cur.value && s.procs[p].state == Ready
  }

  /** The place to which an event moves the process at place p, if it spares it. */
  function Follow(e: Event, p: nat): nat {
    match e
    case Creation => p + 1
    case Termination(k) => if k < p then p - 1 else p
    case _ => p
  }

  /** The number of ticks up to the next slice: 10 at most, and fewer before `tick_count`
      wraps around, since 2^32 is not a multiple of 10. */
  function TicksToSlice(ticks: nat): nat
    requires ticks < TICK_LIMIT
  {
    var m := TIME_SLICE - ticks % TIME_SLICE;
    if ticks + m < TICK_LIMIT then m else TICK_LIMIT - ticks
  }

  lemma TicksToSliceCounts(ticks: nat)
    requires ticks < TICK_LIMIT
    ensures 1 <= TicksToSlice(ticks) <= 10
    ensures var next := (ticks + 1) % TICK_LIMIT;
            if next % TIME_SLICE == 0 then TicksToSlice(ticks) == 1 else TicksToSlice(next) == TicksToSlice(ticks) - 1
  {
    if ticks + 1 == TICK_LIMIT {
      assert (ticks + 1) % TICK_LIMIT == 0;
    } else {
      assert (ticks + 1) % TICK_LIMIT == ticks + 1;
    }
  }

  function Ahead(s: Sched, p: nat): nat
    requires s.cur.Some? && s.cur.value < |s.procs| && p < |s.procs|
  {
    Distance(|s.procs|, s.cur.value, p)
  }

  /** An upper bound on the ticks for which the process at place p still waits. */
  function Budget(s: Sched, p: nat): int
    requires s.cur.Some? && s.cur.value < |s.procs| && p < |s.procs| && s.ticks < TICK_LIMIT
  {
    10 * (Ahead(s, p) - 1) + TicksToSlice(s.ticks)
  }

  /** By how many places an event sets back the process at place p: a creation by one
      unless that process lies after the current one, and the end of the current process
      by the places before it, since the head takes over. */
  function Delay(s: Sched, p: nat, e: Event): nat
    requires s.cur.Some?
  {
    match e
    case Creation => if s.cur.value < p then 0 else 1
    case Termination(k) => if k == s.cur.value < p then k else 0
    case _ => 0
  }

  function TicksOf(e: Event): nat {
    if e == TimerTick then 1 else 0
  }

  /** Each pick brings a waiting process nearer, or picks it. */
  lemma ScheduleBringsNearer(s: Sched, p: nat)
    requires Waits(s, p)
    ensures var s' := Schedule(s); s'.cur == Some(p) || (Waits(s', p) && Ahead(s', p) < Ahead(s, p))
  {
    ScheduleIsRoundRobin(s);
    ScheduleKeepsInv(s);
  }

  /** A process waits whatever the tick count is. */
  lemma WaitsAtAnyTick(s: Sched, p: nat, ticks: nat)
    requires Waits(s, p) && ticks < TICK_LIMIT
    ensures s.ticks < TICK_LIMIT && |s.procs| >= 2
    ensures Waits(s.(ticks := ticks), p)
    ensures Schedule(s.(ticks := ticks)).ticks == ticks
  {
    hide Search;
  }

  lemma TickSpendsBudget(s: Sched, p: nat)
    requires Waits(s, p)
    ensures var s' := Tick(s); s'.cur == Some(p) || (Waits(s', p) && Budget(s', p) + 1 <= Budget(s, p))
  {
    hide Inv, Schedule, TicksToSlice;
    var ticks := (s.ticks + 1) % TICK_LIMIT;
    WaitsAtAnyTick(s, p, ticks);
    TicksToSliceCounts(s.ticks);
    TicksToSliceCounts(ticks);
    ScheduleBringsNearer(s.(ticks := ticks), p);
  }

  lemma TerminationSpendsBudget(s: Sched, p: nat, k: nat)
    requires Waits(s, p) && k != p && k < |s.procs|
    ensures var s' := Terminate(s, k); var p' := if k < p then p - 1 else p;
            || (s'.cur == Some(p') && p' < |s'.procs|)
            || (Waits(s', p') && Budget(s', p') <= Budget(s, p) + 10 * Delay(s, p, Termination(k)))
  {
    hide TicksToSlice;
    TerminateKeepsInv(s, k);
  }

  lemma YieldSpendsBudget(s: Sched, p: nat)
    requires Waits(s, p)
    ensures Step(s, Yield) == Some(Schedule(s)) && p < |Schedule(s).procs|
    ensures var s' := Schedule(s); s'.cur == Some(p) || (Waits(s', p) && Budget(s', p) <= Budget(s, p))
  {
    hide TicksToSlice, Search;
    WaitsAtAnyTick(s, p, s.ticks);
    ScheduleBringsNearer(s, p);
  }

  lemma CreationSpendsBudget(s: Sched, p: nat)
    requires Waits(s, p)
    ensures Waits(Create(s), p + 1) && Budget(Create(s), p + 1) <= Budget(s, p) + 10 * Delay(s, p, Creation)
  {
    hide TicksToSlice;
    CreateKeepsInv(s);
    hide Inv;
  }

  /** One event: the process becomes current, or still waits with less of its budget. */
  lemma StepSpendsBudget(s: Sched, p: nat, e: Event)
    requires Waits(s, p) && e != Termination(p)
    ensures Step(s, e).Some?
    ensures var s' := Step(s, e).value; var p' := Follow(e, p);
            || (s'.cur == Some(p') && Inv(s') && p' < |s'.procs|)
            || (Waits(s', p') && Budget(s', p') + TicksOf(e) <= Budget(s, p) + 10 * Delay(s, p, e))
  {
    hide TicksToSlice, Inv, Tick, Schedule, Create, Terminate, Budget;
    StepKeepsInv(s, e);
    match e
    case TimerTick => TickSpendsBudget(s, p);
    case Yield => YieldSpendsBudget(s, p);
    case Creation => CreationSpendsBudget(s, p);
    case Termination(k) =>
      if k < |s.procs| {
        TerminationSpendsBudget(s, p, k);
      }
  }

  /** The process at place p becomes current at some time of the run. */
  ghost predicate Served(s: Sched, p: nat, es: seq<Event>)
    requires Inv(s)
    decreases es
  {
    || s.cur == Some(p)
    || (es != [] && Step(s, es[0]).Some? &&
        (StepKeepsInv(s, es[0]); Served(Step(s, es[0]).value, Follow(es[0], p), es[1..])))
  }

  /** No event of the run terminates the process at place p. */
  predicate Spares(p: nat, es: seq<Event>)
    decreases es
  {
    es == [] || (es[0] != Termination(p) && Spares(Follow(es[0], p), es[1..]))
  }

  function Ticks(es: seq<Event>): nat {
    if es == [] then 0 else TicksOf(es[0]) + Ticks(es[1..])
  }

  /** The delays that the process at place p suffers until it becomes current. */
  ghost function Delays(s: Sched, p: nat, es: seq<Event>): nat
    requires Inv(s)
    decreases es
  {
    if es == [] || s.cur.None? || s.cur == Some(p) || Step(s, es[0]).None? then 0
    else
      StepKeepsInv(s, es[0]);
      Delay(s, p, es[0]) + Delays(Step(s, es[0]).value, Follow(es[0], p), es[1..])
  }

  /** A ready process becomes current once ten ticks have gone by for each place it is
      behind the current process, or is set back by. */
  lemma {:induction false} BoundedWaiting(s: Sched, p: nat, es: seq<Event>)
    requires Waits(s, p) && Spares(p, es)
    requires Ticks(es) >= 10 * (Ahead(s, p) + Delays(s, p, es))
    ensures Served(s, p, es)
  {
    TicksToSliceCounts(s.ticks);
    WaitingSpendsBudget(s, p, es);
  }

  lemma {:induction false} WaitingSpendsBudget(s: Sched, p: nat, es: seq<Event>)
    requires Waits(s, p) && Spares(p, es)
    ensures Served(s, p, es) || Ticks(es) < Budget(s, p) + 10 * Delays(s, p, es)
    decreases es
  {
    hide TicksToSlice;
    TicksToSliceCounts(s.ticks);
    if es != [] {
      StepSpendsBudget(s, p, es[0]);
      StepKeepsInv(s, es[0]);
      var s', p' := Step(s, es[0]).value, Follow(es[0], p);
      if Waits(s', p') {
        WaitingSpendsBudget(s', p', es[1..]);
      }
    }
  }

  // Waiting counted in picks

  /** Whether an event calls `process_schedule`. */
  predicate Picks(s: Sched, e: Event) {
    e == Yield || (e == TimerTick && (s.ticks + 1) % 0x1_0000_0000 % 10 == 0 && |s.procs| >= 2)
  }

  /** The number of calls of `process_schedule` in a run. */
  ghost function AllPicks(s: Sched, es: seq<Event>): nat
    requires Inv(s)
    decreases es
  {
    if es == [] || Step(s, es[0]).None? then 0
    else
      StepKeepsInv(s, es[0]);
      (if Picks(s, es[0]) then 1 else 0) + AllPicks(Step(s, es[0]).value, es[1..])
  }

  /** A tick that ends no slice leaves the process where it waits, and one that does picks. */
  lemma TickBringsNearer(s: Sched, p: nat)
    requires Waits(s, p)
    ensures var s' := Tick(s);
            || s'.cur == Some(p)
            || (Waits(s', p) && Ahead(s', p) + (if Picks(s, TimerTick) then 1 else 0) <= Ahead(s, p))
  {
    hide Inv, Schedule;
    var ticks := (s.ticks + 1) % TICK_LIMIT;
    WaitsAtAnyTick(s, p, ticks);
    ScheduleBringsNearer(s.(ticks := ticks), p);
  }

  lemma TerminationSetsBack(s: Sched, p: nat, k: nat)
    requires Waits(s, p) && k != p && k < |s.procs|
    ensures var s' := Terminate(s, k); var p' := if k < p then p - 1 else p;
            || s'.cur == Some(p')
            || (Waits(s', p') && Ahead(s', p') <= Ahead(s, p) + Delay(s, p, Termination(k)))
  {
    TerminateKeepsInv(s, k);
  }

  lemma CreationSetsBack(s: Sched, p: nat)
    requires Waits(s, p)
    ensures Waits(Create(s), p + 1) && Ahead(Create(s), p + 1) <= Ahead(s, p) + Delay(s, p, Creation)
  {
    CreateKeepsInv(s);
    hide Inv;
  }

  /** One event: the process becomes current, or still waits, nearer by one if the event picks. */
  lemma StepBringsNearer(s: Sched, p: nat, e: Event)
    requires Waits(s, p) && e != Termination(p)
    ensures Step(s, e).Some?
    ensures var s' := Step(s, e).value; var p' := Follow(e, p);
            || s'.cur == Some(p')
            || (Waits(s', p') && Ahead(s', p') + (if Picks(s, e) then 1 else 0) <= Ahead(s, p) + Delay(s, p, e))
  {
    hide Inv, Tick, Schedule, Create, Terminate;
    match e
    case TimerTick => TickBringsNearer(s, p);
    case Yield => ScheduleBringsNearer(s, p);
    case Creation => CreationSetsBack(s, p);
    case Termination(k) =>
      if k < |s.procs| {
        TerminationSetsBack(s, p, k);
      }
  }

  /** A ready process becomes current once `process_schedule` has been called as often as
      there are places between, and places it is set back by; whether by slices or directly. */
  lemma {:induction false} PicksBoundWaiting(s: Sched, p: nat, es: seq<Event>)
    requires Waits(s, p) && Spares(p, es)
    ensures Served(s, p, es) || AllPicks(s, es) < Ahead(s, p) + Delays(s, p, es)
    decreases es
  {
    hide Picks, Delay;
    if es != [] {
      StepBringsNearer(s, p, es[0]);
      StepKeepsInv(s, es[0]);
      var s', p' := Step(s, es[0]).value, Follow(es[0], p);
      if Waits(s', p') {
        PicksBoundWaiting(s', p', es[1..]);
      }
    }
  }

  // Runs that do not terminate the current process

  ghost predicate CurrentRuns(s: Sched) {
    s.cur.Some? && s.cur.value < |s.procs| && s.procs[s.cur.value].state == Running
  }

  /** No event of the run terminates the process that is current at that time. */
  ghost predicate SparesCurrent(s: Sched, es: seq<Event>)
    requires Inv(s)
    decreases es
  {
    es != [] && Step(s, es[0]).Some? ==>
      && !(es[0].Termination? && s.cur == Some(es[0].place))
      && (StepKeepsInv(s, es[0]); SparesCurrent(Step(s, es[0]).value, es[1..]))
  }

  /** The process at place p is in the state RUNNING at some time of the run. */
  ghost predicate GetsToRun(s: Sched, p: nat, es: seq<Event>)
    requires Inv(s)
    decreases es
  {
    || (p < |s.procs| && s.procs[p].state == Running)
    || (es != [] && Step(s, es[0]).Some? &&
        (StepKeepsInv(s, es[0]); GetsToRun(Step(s, es[0]).value, Follow(es[0], p), es[1..])))
  }

  lemma StepKeepsCurrentRunning(s: Sched, e: Event)
    requires Inv(s) && CurrentRuns(s) && Step(s, e).Some? && !(e.Termination? && s.cur == Some(e.place))
    ensures CurrentRuns(Step(s, e).value)
  {
    hide Schedule, Inv;
    match e
    case TimerTick =>
      var t := s.(ticks := (s.ticks + 1) % TICK_LIMIT);
      SwitchedRuns(t);
    case Yield => SwitchedRuns(s);
    case Creation =>
    case Termination(_) =>
  }

  lemma SwitchedRuns(s: Sched)
    requires CurrentRuns(s)
    ensures CurrentRuns(Schedule(s))
  {
    hide Search;
  }

  /** The current process is RUNNING as long as no current process is terminated, so a
      process that becomes current is. */
  lemma {:induction false} ServedGetsToRun(s: Sched, p: nat, es: seq<Event>)
    requires Inv(s) && CurrentRuns(s) && SparesCurrent(s, es) && Served(s, p, es)
    ensures GetsToRun(s, p, es)
    decreases es
  {
    if s.cur != Some(p) {
      StepKeepsInv(s, es[0]);
      StepKeepsCurrentRunning(s, es[0]);
      ServedGetsToRun(Step(s, es[0]).value, Follow(es[0], p), es[1..]);
    }
  }

  lemma StepKeepsBehind(s: Sched, p: nat, e: Event)
    requires Waits(s, p) && s.cur.value < p && e != Termination(p) && e != Termination(s.cur.value)
    ensures Step(s, e).Some?
    ensures var s' := Step(s, e).value; s'.cur.Some? && s'.cur.value <= Follow(e, p)
    ensures Delay(s, p, e) == 0
  {
    ScheduleIsRoundRobin(s);
  }

  /** What lies behind the current process in the list is never set back. */
  lemma {:induction false} NoDelayBehindCurrent(s: Sched, p: nat, es: seq<Event>)
    requires Waits(s, p) && s.cur.value < p && Spares(p, es) && SparesCurrent(s, es)
    ensures Delays(s, p, es) == 0
    decreases es
  {
    if es != [] {
      StepKeepsBehind(s, p, es[0]);
      StepSpendsBudget(s, p, es[0]);
      StepKeepsInv(s, es[0]);
      var s', p' := Step(s, es[0]).value, Follow(es[0], p);
      if Waits(s', p') {
        NoDelayBehindCurrent(s', p', es[1..]);
      }
    }
  }

  /** Creations never delay a ready process that lies behind the current one: it runs
      within ten ticks for each place between them. */
  lemma RunsWithinTenTicksPerPlace(s: Sched, p: nat, es: seq<Event>)
    requires Waits(s, p) && CurrentRuns(s) && s.cur.value < p
    requires Spares(p, es) && SparesCurrent(s, es) && Ticks(es) >= 10 * (p - s.cur.value)
    ensures GetsToRun(s, p, es)
  {
    NoDelayBehindCurrent(s, p, es);
    BoundedWaiting(s, p, es);
    ServedGetsToRun(s, p, es);
  }

  // When the current process is RUNNING

  /** The end of the current process hands over to the head of the list and leaves no
      process RUNNING. */
  lemma TerminatingCurrentLeavesNoneRunning(s: Sched, k: nat)
    requires Inv(s) && s.cur == Some(k) && 2 <= |s.procs|
    ensures Terminate(s, k).cur == Some(0)
    ensures forall i | 0 <= i < |s.procs| - 1 :: Terminate(s, k).procs[i].state != Running
  {
    RemovedAt(s, k);
  }

  /** A RUNNING current process is followed by a RUNNING one exactly if it is not terminated. */
  lemma StaysRunningIff(s: Sched, e: Event)
    requires Inv(s) && CurrentRuns(s)
    ensures Step(s, e).Some?
    ensures CurrentRuns(Step(s, e).value) <==> e != Termination(s.cur.value)
  {
    hide Schedule, Tick;
    if e == Termination(s.cur.value) {
      TerminatedDoesNotRun(s, s.cur.value);
    } else {
      StepKeepsCurrentRunning(s, e);
    }
  }

  lemma TerminatedDoesNotRun(s: Sched, k: nat)
    requires Inv(s) && k < |s.procs| && s.cur.Some? && (s.cur == Some(k) || !CurrentRuns(s))
    ensures !CurrentRuns(Terminate(s, k))
  {
    RemovedAt(s, k);
  }

  /** A process other than the current one is READY. */
  ghost predicate AnotherReady(s: Sched) {
    exists j: nat :: j < |s.procs| && s.cur != Some(j) && s.procs[j].state == Ready
  }

  lemma ScheduledRunsIff(s: Sched)
    requires Inv(s) && s.cur.Some? && !CurrentRuns(s)
    ensures CurrentRuns(Schedule(s)) <==> AnotherReady(s)
  {
    ScheduleIsRoundRobin(s);
    hide Search, Inv;
  }

  /** A current process that is not RUNNING is followed by a RUNNING one exactly at the next
      call of `process_schedule` at which another process is READY. */
  lemma RunsAgainIff(s: Sched, e: Event)
    requires Inv(s) && s.cur.Some? && !CurrentRuns(s)
    ensures Step(s, e).Some?
    ensures CurrentRuns(Step(s, e).value) <==> Picks(s, e) && AnotherReady(s)
  {
    var ticks := (s.ticks + 1) % TICK_LIMIT;
    match e
    case TimerTick =>
      ScheduledRunsIff(s.(ticks := ticks));
      assert AnotherReady(s.(ticks := ticks)) <==> AnotherReady(s);
      hide Inv, Schedule, AnotherReady;
    case Yield => ScheduledRunsIff(s);
    case Creation => CreatedAt(s);
    case Termination(k) =>
      if k < |s.procs| {
        TerminatedDoesNotRun(s, k);
      }
  }

  // What becomes of the others

  /** No process is BLOCKED or TERMINATED, and only the current one may be RUNNING. */
  ghost predicate AllInTurn(s: Sched) {
    forall i | 0 <= i < |s.procs| ::
      s.procs[i].state == Ready || (s.procs[i].state == Running && s.cur == Some(i))
  }

  lemma SwitchKeepsTurns(s: Sched)
    requires AllInTurn(s) && s.cur.Some? && s.cur.value < |s.procs|
    ensures AllInTurn(Schedule(s))
  {
    hide Search;
  }

  lemma YieldKeepsTurns(s: Sched)
    requires Inv(s) && AllInTurn(s) && (s.procs != [] ==> s.cur.Some?)
    ensures AllInTurn(Schedule(s))
  {
    hide Search;
  }

  lemma StepKeepsTurns(s: Sched, e: Event)
    requires Inv(s) && AllInTurn(s) && Step(s, e).Some?
    ensures AllInTurn(Step(s, e).value)
  {
    hide Schedule;
    match e
    case TimerTick =>
      if s.cur.Some? {
        SwitchKeepsTurns(s.(ticks := (s.ticks + 1) % TICK_LIMIT));
      }
    case Yield => YieldKeepsTurns(s);
    case Creation => CreatedAt(s);
    case Termination(k) =>
      if k < |s.procs| {
        TerminateKeepsTurns(s, k);
      }
  }

  lemma TerminateKeepsTurns(s: Sched, k: nat)
    requires Inv(s) && AllInTurn(s) && k < |s.procs|
    ensures AllInTurn(Terminate(s, k))
  {
    RemovedAt(s, k);
    TerminateKeepsInv(s, k);
  }

  lemma {:induction false} RunKeepsTurns(s: Sched, es: seq<Event>)
    requires Inv(s) && AllInTurn(s) && Run(s, es).Some?
    ensures AllInTurn(Run(s, es).value)
    decreases es
  {
    if es != [] {
      hide AllInTurn, Inv, Step;
      StepKeepsInv(s, es[0]);
      StepKeepsTurns(s, es[0]);
      RunKeepsTurns(Step(s, es[0]).value, es[1..]);
    }
  }

  lemma {:induction false} RunKeepsRunning(s: Sched, es: seq<Event>)
    requires Inv(s) && CurrentRuns(s) && SparesCurrent(s, es)
    ensures Run(s, es).Some? && CurrentRuns(Run(s, es).value)
    decreases es
  {
    if es != [] {
      StaysRunningIff(s, es[0]);
      StepKeepsInv(s, es[0]);
      hide Inv, Step, CurrentRuns;
      RunKeepsRunning(Step(s, es[0]).value, es[1..]);
    }
  }

  /** At every time after `process_init` all processes but the current are READY; the current
      one is RUNNING if no current process has been terminated, and else READY or RUNNING. */
  lemma StatesOverRuns(es: seq<Event>)
    requires Run(INITIAL, es).Some?
    ensures var s := Run(INITIAL, es).value; AllInTurn(s) && (SparesCurrent(INITIAL, es) ==> CurrentRuns(s))
  {
    RunKeepsTurns(INITIAL, es);
    if SparesCurrent(INITIAL, es) {
      RunKeepsRunning(INITIAL, es);
    }
  }

  /** The process switched away from is READY again, and waits for its turn. */
  lemma SwitchedAwayWaits(s: Sched)
    requires Inv(s) && s.cur.Some? && Schedule(s).cur != s.cur
    ensures Waits(Schedule(s), s.cur.value)
  {
    ScheduleKeepsInv(s);
    hide Search, Inv;
  }

  // The rotation

  /** These processes, of which only the one at place k is RUNNING. */
  function OnlyRunning(procs: seq<Entry>, k: nat): (r: seq<Entry>)
    ensures |r| == |procs|
    ensures forall i | 0 <= i < |r| :: r[i] == Entry(procs[i].serial, if i == k then Running else Ready)
  {
    seq(|procs|, i requires 0 <= i < |procs| => Entry(procs[i].serial, if i == k then Running else Ready))
  }

  /** Some places on from the current process, around the list. */
  function Onward(s: Sched, k: nat): (p: nat)
    requires s.cur.Some? && s.procs != []
    ensures p < |s.procs|
  {
    (s.cur.value + k) % |s.procs|
  }

  /** The same list when the process some places on has its turn. */
  function Turned(s: Sched, k: nat, ticks: nat): Sched
    requires s.cur.Some? && s.procs != []
  {
    s.(procs := OnlyRunning(s.procs, Onward(s, k)), cur := Some(Onward(s, k)), ticks := ticks)
  }

  lemma TurnedIs(s: Sched)
    requires Inv(s) && AllInTurn(s) && CurrentRuns(s)
    ensures s.procs != [] && Turned(s, 0, s.ticks) == s
  {
    hide Inv, AllInTurn, OnlyRunning;
    OnlyOneRuns(s);
    assert Onward(s, 0) == s.cur.value;
  }

  lemma OnlyOneRuns(s: Sched)
    requires Inv(s) && AllInTurn(s) && CurrentRuns(s)
    ensures OnlyRunning(s.procs, s.cur.value) == s.procs
  {
    hide Inv;
    var procs := OnlyRunning(s.procs, s.cur.value);
    forall i | 0 <= i < |procs|
      ensures procs[i] == s.procs[i]
    {
    }
  }

  /** A turned list keeps what the invariants say of it. */
  lemma TurnedKeeps(s: Sched, k: nat, ticks: nat)
    requires Inv(s) && s.cur.Some? && s.procs != [] && ticks < TICK_LIMIT
    ensures var t := Turned(s, k, ticks); Inv(t) && AllInTurn(t) && CurrentRuns(t)
  {
  }

  lemma OnwardOne(c: nat, k: nat, n: nat)
    requires n > 0
    ensures var p := (c + k) % n; (c + (k + 1)) % n == if p + 1 == n then 0 else p + 1
  {
    var q := (c + k) / n;
    assert c + k == q * n + (c + k) % n;
    if (c + k) % n + 1 == n {
      ModuloIs(c + (k + 1), n, q + 1, 0);
    } else {
      ModuloIs(c + (k + 1), n, q, (c + k) % n + 1);
    }
  }

  lemma ModuloIs(x: nat, n: nat, q: nat, r: nat)
    requires x == q * n + r && r < n
    ensures x % n == r
  {
    var q', r' := x / n, x % n;
    assert x == q' * n + r';
    if q > q' {
      MoreGroups(q, q', n);
    } else if q < q' {
      MoreGroups(q', q, n);
    }
  }

  lemma MoreGroups(a: nat, b: nat, n: nat)
    requires a > b
    ensures a * n >= b * n + n
  {
    var d := a - b - 1;
    assert a == b + 1 + d;
    assert a * n == b * n + n + d * n;
  }

  /** With all others READY, a pick gives the turn to the next in the list, after the last to
      the first. */
  lemma PickTurns(s: Sched)
    requires Inv(s) && AllInTurn(s) && CurrentRuns(s)
    ensures var c := s.cur.value; var next := if c + 1 == |s.procs| then 0 else c + 1;
      Schedule(s) == s.(procs := OnlyRunning(s.procs, next), cur := Some(next))
  {
    var c := s.cur.value;
    var next := After(|s.procs|, c);
    OnlyOneRuns(s);
    assert next != c ==> s.procs[next].state == Ready;
    assert Search(s.procs, c, next) == next;
    if next != c {
      assert Schedule(s).procs == OnlyRunning(s.procs, next);
    }
  }

  lemma TurnedTurns(s: Sched, k: nat, ticks: nat)
    requires Inv(s) && s.cur.Some? && s.procs != [] && ticks < TICK_LIMIT
    ensures Inv(Turned(s, k, ticks)) && Schedule(Turned(s, k, ticks)) == Turned(s, k + 1, ticks)
  {
    var t := Turned(s, k, ticks);
    TurnedKeeps(s, k, ticks);
    PickTurns(t);
    OnwardOne(s.cur.value, k, |s.procs|);
    hide Schedule, Inv;
    assert OnlyRunning(t.procs, Onward(s, k + 1)) == OnlyRunning(s.procs, Onward(s, k + 1));
  }

  /** Only ticks and direct calls. */
  predicate OnlyCalls(es: seq<Event>) {
    forall e | e in es :: e == TimerTick || e == Yield
  }

  lemma StepTurns(s: Sched, k: nat, ticks: nat, e: Event)
    requires Inv(s) && s.cur.Some? && s.procs != [] && ticks < TICK_LIMIT && (e == TimerTick || e == Yield)
    ensures var t := Turned(s, k, ticks);
      Inv(t) && Step(t, e) == Some(Turned(s, if Picks(t, e) then k + 1 else k, (ticks + TicksOf(e)) % 0x1_0000_0000))
  {
    hide Schedule, Inv, Turned;
    TurnedKeeps(s, k, ticks);
    TurnedTurns(s, k, ticks);
    TurnedHas(s, k, ticks);
    TurnedTurns(s, k, (ticks + 1) % TICK_LIMIT);
  }

  lemma TurnedHas(s: Sched, k: nat, ticks: nat)
    requires s.cur.Some? && s.procs != []
    ensures var t := Turned(s, k, ticks); |t.procs| == |s.procs| && t.cur.Some? && t.ticks == ticks
    ensures forall next :: Turned(s, k, ticks).(ticks := next) == Turned(s, k, next)
  {
  }

  lemma {:induction false} CallsTurn(s: Sched, k: nat, ticks: nat, es: seq<Event>)
    requires Inv(s) && s.cur.Some? && s.procs != [] && ticks < TICK_LIMIT && OnlyCalls(es)
    ensures var t := Turned(s, k, ticks);
      Inv(t) && Run(t, es) == Some(Turned(s, k + AllPicks(t, es), (ticks + Ticks(es)) % 0x1_0000_0000))
    decreases es
  {
    hide Inv, Step, Turned, Picks, CountsOf;
    TurnedKeeps(s, k, ticks);
    if es == [] {
    } else {
      var t, e := Turned(s, k, ticks), es[0];
      assert e in es && forall x | x in es[1..] :: x in es;
      StepTurns(s, k, ticks, e);
      CallsTurn(s, if Picks(t, e) then k + 1 else k, (ticks + TicksOf(e)) % TICK_LIMIT, es[1..]);
      TicksAdd(ticks, TicksOf(e), Ticks(es[1..]));
    }
  }

  lemma TicksAdd(ticks: nat, a: nat, b: nat)
    ensures ((ticks + a) % TICK_LIMIT + b) % TICK_LIMIT == (ticks + (a + b)) % TICK_LIMIT
  {
  }

  /** Round robin over runs: whatever ticks and direct calls there are, the turn has gone on by
      as many places as there were picks, around the list, and everyone else is READY. */
  lemma CallsRotate(s: Sched, es: seq<Event>)
    requires Inv(s) && AllInTurn(s) && CurrentRuns(s) && OnlyCalls(es)
    ensures s.procs != []
    ensures Run(s, es) == Some(Turned(s, AllPicks(s, es), (s.ticks + Ticks(es)) % 0x1_0000_0000))
  {
    hide Inv, Turned, Run, AllPicks, Ticks, AllInTurn, CurrentRuns;
    TicksAreBelow(s);
    TurnedIs(s);
    CallsTurn(s, 0, s.ticks, es);
  }

  lemma TicksAreBelow(s: Sched)
    requires Inv(s) && CurrentRuns(s)
    ensures s.ticks < TICK_LIMIT && s.cur.Some?
  {
  }

  function Beats(n: nat): (es: seq<Event>)
    ensures |es| == n && forall e | e in es :: e == TimerTick
  {
    seq(n, _ => TimerTick)
  }

  /** How many of the first x tick counts from 0 on end a slice: every tenth, and 0 itself each
      time that the count wraps around, which is six ticks after the one before. */
  function SliceEnds(x: nat): nat {
    x / 0x1_0000_0000 * 429496730 + x % 0x1_0000_0000 / 10
  }

  lemma SliceEndsStep(ticks: nat)
    requires ticks < 0x1_0000_0000
    ensures var next := (ticks + 1) % 0x1_0000_0000;
      SliceEnds(ticks + 1) == SliceEnds(ticks) + if next % 10 == 0 then 1 else 0
  {
  }

  lemma SliceEndsAround(ticks: nat, n: nat)
    requires ticks < 0x1_0000_0000
    ensures var next := (ticks + 1) % 0x1_0000_0000;
      SliceEnds(next + n) - SliceEnds(next) == SliceEnds(ticks + 1 + n) - SliceEnds(ticks + 1)
  {
    hide SliceEnds;
    if ticks + 1 == 0x1_0000_0000 {
      SliceEndsOfRound(0);
      SliceEndsOfRound(n);
    }
  }

  lemma SliceEndsOfRound(n: nat)
    ensures SliceEnds(0x1_0000_0000 + n) == 429496730 + SliceEnds(n)
  {
    var q, r := n / 0x1_0000_0000, n % 0x1_0000_0000;
    assert 0x1_0000_0000 + n == 0x1_0000_0000 * (q + 1) + r;
  }

  lemma {:induction false} PicksOfTurned(s: Sched, k: nat, ticks: nat, n: nat)
    requires Inv(s) && s.cur.Some? && |s.procs| >= 2 && ticks < TICK_LIMIT
    ensures Inv(Turned(s, k, ticks))
    ensures AllPicks(Turned(s, k, ticks), Beats(n)) == SliceEnds(ticks + n) - SliceEnds(ticks)
    ensures Ticks(Beats(n)) == n
    decreases n
  {
    hide Inv, Step, Turned, Picks, SliceEnds;
    TurnedKeeps(s, k, ticks);
    if n > 0 {
      var t, es := Turned(s, k, ticks), Beats(n);
      assert es[0] == TimerTick && es[1..] == Beats(n - 1);
      StepTurns(s, k, ticks, TimerTick);
      PickOfTurned(s, k, ticks);
      SliceEndsStep(ticks);
      SliceEndsAround(ticks, n - 1);
      PicksOfTurned(s, if Picks(t, TimerTick) then k + 1 else k, (ticks + 1) % TICK_LIMIT, n - 1);
    }
  }

  lemma PickOfTurned(s: Sched, k: nat, ticks: nat)
    requires s.cur.Some? && |s.procs| >= 2
    ensures Picks(Turned(s, k, ticks), TimerTick) <==> (ticks + 1) % 0x1_0000_0000 % 10 == 0
    ensures ticks + TicksOf(TimerTick) == ticks + 1
  {
  }

  /** A slice has ten ticks, no more and no fewer, but for the one in which the tick count
      wraps around, which has six. */
  lemma PicksOfBeats(s: Sched, n: nat)
    requires Inv(s) && AllInTurn(s) && CurrentRuns(s) && |s.procs| >= 2
    ensures AllPicks(s, Beats(n)) == SliceEnds(s.ticks + n) - SliceEnds(s.ticks)
    ensures Ticks(Beats(n)) == n
  {
    hide Inv, Turned, AllPicks, Ticks, AllInTurn, SliceEnds;
    TurnedIs(s);
    TicksAreBelow(s);
    PicksOfTurned(s, 0, s.ticks, n);
  }

  /** So after any number of ticks it is known whose turn it is. */
  lemma BeatsRotate(s: Sched, n: nat)
    requires Inv(s) && AllInTurn(s) && CurrentRuns(s) && |s.procs| >= 2
    ensures SliceEnds(s.ticks + n) >= SliceEnds(s.ticks)
    ensures Run(s, Beats(n)) ==
      Some(Turned(s, SliceEnds(s.ticks + n) - SliceEnds(s.ticks), (s.ticks + n) % 0x1_0000_0000))
  {
    hide Inv, AllInTurn, CurrentRuns, Run, AllPicks, Ticks, SliceEnds;
    CallsRotate(s, Beats(n));
    PicksOfBeats(s, n);
  }

  lemma {:induction false} BeatsSpare(s: Sched, p: nat, n: nat)
    requires Inv(s) && CurrentRuns(s)
    ensures Spares(p, Beats(n)) && SparesCurrent(s, Beats(n)) && Ticks(Beats(n)) == n && Delays(s, p, Beats(n)) == 0
    decreases n
  {
    if n > 0 {
      var es := Beats(n);
      assert es[0] == TimerTick && es[1..] == Beats(n - 1);
      StaysRunningIff(s, TimerTick);
      StepKeepsInv(s, TimerTick);
      hide Inv, Step, CurrentRuns;
      BeatsSpare(Step(s, TimerTick).value, p, n - 1);
    }
  }

  lemma WaitsARound(s: Sched, p: nat)
    requires Inv(s) && AllInTurn(s) && CurrentRuns(s) && p < |s.procs| && s.cur != Some(p)
    ensures Waits(s, p) && Ahead(s, p) < |s.procs|
  {
  }

  lemma RunsWithinRound(s: Sched, p: nat, n: nat)
    requires Inv(s) && AllInTurn(s) && CurrentRuns(s) && p < |s.procs| && n >= 10 * |s.procs| - 1
    ensures GetsToRun(s, p, Beats(n))
  {
    hide Inv, AllInTurn, Waits, Beats;
    if s.cur != Some(p) {
      WaitsARound(s, p);
      BeatsSpare(s, p, n);
      BoundedWaiting(s, p, Beats(n));
      ServedGetsToRun(s, p, Beats(n));
    }
  }

  /** Every process runs again and again: from any time on, with ticks only, each is RUNNING
      again within ten ticks for every process in the list. */
  lemma RunsAgain(s: Sched, p: nat, n: nat)
    requires Inv(s) && AllInTurn(s) && CurrentRuns(s) && p < |s.procs| && n >= 10 * |s.procs|
    ensures Step(s, TimerTick).Some? && Inv(Step(s, TimerTick).value)
    ensures GetsToRun(Step(s, TimerTick).value, p, Beats(n - 1))
  {
    StaysRunningIff(s, TimerTick);
    StepKeepsInv(s, TimerTick);
    StepKeepsTurns(s, TimerTick);
    StepCounts(s, TimerTick);
    hide Inv, AllInTurn, Step;
    var t := Step(s, TimerTick).value;
    assert |t.procs| == |s.procs|;
    RunsWithinRound(t, p, n - 1);
  }
}
