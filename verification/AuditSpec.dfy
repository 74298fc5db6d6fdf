/** The bounded event log of audit.c, on values. */
module AuditSpec {
  import opened Prelude

  const MAX_LOGS := 1024
  const ID_LIMIT := 0x1_0000_0000
  const MESSAGE_LENGTH := 255

  /** The levels from none to verbose are 0 to 4. */
  const NONE := 0
  const INFO := 3
  const VERBOSE := 4

  const SYSTEM_BOOT := 8
  const SECURITY_CHANGE := 7

  datatype Event = Event(id: nat, timestamp: nat, kind: nat, level: nat, user: nat, message: string)

  /** What a caller asks to be logged, and the tick count then. */
  datatype Request = Request(kind: nat, level: nat, user: nat, message: string, tick: nat)

  datatype Log = Log(events: seq<Event>, nextId: nat, current: nat, ready: bool)

  /** The first message is cut off to fit into its 256 bytes. */
  function Cut(message: string): string {
    if |message| <= MESSAGE_LENGTH then message else message[..MESSAGE_LENGTH]
  }

  function Recorded(r: Request, id: nat): Event {
    Event(id, r.tick, r.kind, r.level, r.user, Cut(r.message))
  }

  predicate Accepts(current: nat, r: Request) {
    r.level <= current && current != NONE
  }

  /** `audit_log`: the log and the status. */
  function Add(log: Log, r: Request): (Log, int) {
    if !Accepts(log.current, r) then (log, 0)
    else if !log.ready then (log, -1)
    else
      var kept := if |log.events| >= MAX_LOGS then log.events[1..MAX_LOGS] else log.events;
      (log.(events := kept + [Recorded(r, log.nextId)], nextId := (log.nextId + 1) % ID_LIMIT), 0)
  }

  /** The event that records a change of the level. */
  function LevelChange(tick: nat): Request {
    Request(SECURITY_CHANGE, INFO, 0, "Denetim seviyesi degistirildi", tick)
  }

  /** `audit_set_level`. */
  function SetLevel(log: Log, level: int, tick: nat): Log {
    if NONE <= level <= VERBOSE then Add(log.(current := level), LevelChange(tick)).0 else log
  }

  /** `audit_init`. */
  function Init(current: nat, tick: nat): Log {
    Add(Log([], 1, current, true), Boot(tick)).0
  }

  /** An event is logged exactly if the level is not 0 and not below that of the event, and
      there is a log. It is the last then, with what was asked for, the message cut at 255
      characters, and the next identifier; a full log has lost its first event. */
  lemma AddIs(log: Log, r: Request)
    requires |log.events| <= 1024
    ensures var (after, status) := Add(log, r);
      var passes := 0 < log.current && r.level <= log.current;
      && status == (if passes && !log.ready then -1 else 0)
      && (!(passes && log.ready) ==> after == log)
      && (passes && log.ready ==>
          var kept := if |log.events| == 1024 then log.events[1..] else log.events;
          && 0 < |after.events| <= 1024 && after.events[..|after.events| - 1] == kept
          && (var e := after.events[|after.events| - 1];
              && e.id == log.nextId && e.timestamp == r.tick && e.kind == r.kind && e.level == r.level
              && e.user == r.user && e.message == r.message[..if |r.message| < 255 then |r.message| else 255])
          && after.nextId == (log.nextId + 1) % 0x1_0000_0000
          && after.current == log.current && after.ready)
  {
    var after := Add(log, r).0;
    if after != log {
      assert after.events[..|after.events| - 1] == if |log.events| == 1024 then log.events[1..] else log.events;
    }
  }

  /** The levels 0 to 4 are set, and no other; the change is itself an event of level 3, so
      that setting a level below that leaves no trace in the log. */
  lemma SetLevelIs(log: Log, level: int, tick: nat)
    requires log.ready && |log.events| < 1024
    ensures var after := SetLevel(log, level, tick);
      && after.current == (if 0 <= level <= 4 then level else log.current)
      && after.events == log.events +
         if 3 <= level <= 4 then [Event(log.nextId, tick, 7, 3, 0, "Denetim seviyesi degistirildi")] else []
  {
    assert |"Denetim seviyesi degistirildi"| < 255;
  }

  /** A new log holds the boot event, if the level lets it pass. */
  lemma InitIs(current: nat, tick: nat)
    ensures var log := Init(current, tick);
      && log.ready && log.current == current
      && log.events == (if current >= 3 then [Event(1, tick, 8, 3, 0, "system started")] else [])
      && log.nextId == (if current >= 3 then 2 else 1)
  {
    assert |"system started"| < 255;
    assert [] + [Event(1, tick, 8, 3, 0, "system started")] == [Event(1, tick, 8, 3, 0, "system started")];
  }

  // Runs

  datatype Call = LogCall(request: Request) | LevelCall(level: int, tick: nat)

  function Step(log: Log, call: Call): Log {
    match call
    case LogCall(r) => Add(log, r).0
    case LevelCall(level, tick) => SetLevel(log, level, tick)
  }

  function Run(log: Log, calls: seq<Call>): Log {
    if calls == [] then log else Step(Run(log, calls[..|calls| - 1]), calls[|calls| - 1])
  }

  /** The level that calls leave behind. */
  function LevelAfter(current: nat, calls: seq<Call>): nat {
    if calls == [] then current
    else
      var last := calls[|calls| - 1];
      if last.LevelCall? && NONE <= last.level <= VERBOSE then last.level
      else LevelAfter(current, calls[..|calls| - 1])
  }

  /** The requests that a call makes and that the level lets pass. */
  function Passed(current: nat, call: Call): seq<Request> {
    match call
    case LogCall(r) => if Accepts(current, r) then [r] else []
    case LevelCall(level, tick) => if INFO <= level <= VERBOSE then [LevelChange(tick)] else []
  }

  function Accepted(current: nat, calls: seq<Call>): seq<Request> {
    if calls == [] then []
    else
      var n := |calls| - 1;
      Accepted(current, calls[..n]) + Passed(LevelAfter(current, calls[..n]), calls[n])
  }

  /** The requests with consecutive identifiers, from first on. */
  function Numbered(requests: seq<Request>, first: nat): (events: seq<Event>)
    ensures |events| == |requests|
    ensures forall k | 0 <= k < |requests| :: events[k] == Recorded(requests[k], (first + k) % ID_LIMIT)
  {
    seq(|requests|, k requires 0 <= k < |requests| => Recorded(requests[k], (first + k) % ID_LIMIT))
  }

  /** The last n elements, or all. */
  function Last<T>(s: seq<T>, n: nat): seq<T> {
    if |s| <= n then s else s[|s| - n..]
  }

  lemma LastAppend<T>(s: seq<T>, x: T, n: nat)
    requires n > 0
    ensures Last(s + [x], n) == if |Last(s, n)| >= n then Last(s, n)[1..n] + [x] else Last(s, n) + [x]
  {
  }

  lemma NumberedAppend(requests: seq<Request>, r: Request, first: nat)
    ensures Numbered(requests + [r], first) ==
      Numbered(requests, first) + [Recorded(r, (first + |requests|) % ID_LIMIT)]
  {
  }

  /** Whether a log holds the last of these requests. */
  ghost predicate HoldsLast(log: Log, requests: seq<Request>) {
    && log.ready && log.events == Last(Numbered(requests, 1), MAX_LOGS)
    && log.nextId == (1 + |requests|) % ID_LIMIT
  }

  lemma AddHoldsLast(log: Log, requests: seq<Request>, r: Request)
    requires HoldsLast(log, requests)
    ensures HoldsLast(Add(log, r).0, if Accepts(log.current, r) then requests + [r] else requests)
    ensures Add(log, r).0.current == log.current
  {
    hide Numbered, Last, Recorded, Cut, Accepts;
    NumberedAppend(requests, r, 1);
    LastAppend(Numbered(requests, 1), Recorded(r, log.nextId), MAX_LOGS);
  }

  lemma StepHoldsLast(log: Log, requests: seq<Request>, call: Call)
    requires HoldsLast(log, requests)
    ensures HoldsLast(Step(log, call), requests + Passed(log.current, call))
    ensures Step(log, call).current ==
      if call.LevelCall? && NONE <= call.level <= VERBOSE then call.level else log.current
  {
    hide HoldsLast, Add;
    assert requests + [] == requests;
    match call {
      case LogCall(r) =>
        AddHoldsLast(log, requests, r);
      case LevelCall(level, tick) =>
        if NONE <= level <= VERBOSE {
          LevelKeeps(log, requests, level);
          AddHoldsLast(log.(current := level), requests, LevelChange(tick));
        }
    }
  }

  function Boot(tick: nat): Request {
    Request(SYSTEM_BOOT, INFO, 0, "system started", tick)
  }

  /** All requests that have passed since the log was made. */
  function History(current: nat, tick: nat, calls: seq<Call>): seq<Request> {
    (if Accepts(current, Boot(tick)) then [Boot(tick)] else []) + Accepted(current, calls)
  }

  /** After any calls the log holds exactly the last 1024 accepted events, in order, with
      consecutive identifiers. */
  lemma {:induction false} RunHoldsLast(current: nat, tick: nat, calls: seq<Call>)
    ensures HoldsLast(Run(Init(current, tick), calls), History(current, tick, calls))
    ensures Run(Init(current, tick), calls).current == LevelAfter(current, calls)
  {
    hide Accepts, Boot, Passed, Step, Add;
    if calls == [] {
      InitHoldsLast(current, tick);
      hide HoldsLast, Init;
      assert History(current, tick, []) == if Accepts(current, Boot(tick)) then [Boot(tick)] else [];
    } else {
      hide HoldsLast, Init;
      var n := |calls| - 1;
      RunHoldsLast(current, tick, calls[..n]);
      var log := Run(Init(current, tick), calls[..n]);
      StepHoldsLast(log, History(current, tick, calls[..n]), calls[n]);
      assert History(current, tick, calls) == History(current, tick, calls[..n]) + Passed(log.current, calls[n]);
    }
  }

  lemma InitHoldsLast(current: nat, tick: nat)
    ensures HoldsLast(Init(current, tick), if Accepts(current, Boot(tick)) then [Boot(tick)] else [])
    ensures Init(current, tick).current == current
  {
    AddHoldsLast(Log([], 1, current, true), [], Boot(tick));
    assert [] + [Boot(tick)] == [Boot(tick)];
  }

  lemma LevelKeeps(log: Log, requests: seq<Request>, level: nat)
    requires HoldsLast(log, requests)
    ensures HoldsLast(log.(current := level), requests)
  {
  }

  /** While the level never exceeds a bound, no event above it is ever in the log; and none
      at all if the bound is 0. */
  lemma {:induction false} RunStaysWithinLevel(current: nat, tick: nat, calls: seq<Call>, bound: nat)
    requires current <= bound
    requires forall call | call in calls && call.LevelCall? && 0 <= call.level <= 4 :: call.level <= bound
    ensures var log := Run(Init(current, tick), calls);
      && log.current <= bound
      && (forall e | e in log.events :: e.level <= bound) && (bound == 0 ==> log.events == [])
  {
    hide Recorded;
    if calls != [] {
      var n := |calls| - 1;
      assert forall call | call in calls[..n] :: call in calls;
      assert calls[n] in calls;
      RunStaysWithinLevel(current, tick, calls[..n], bound);
      StepStaysWithinLevel(Run(Init(current, tick), calls[..n]), calls[n], bound);
    } else {
      InitIs(current, tick);
    }
  }

  lemma StepStaysWithinLevel(log: Log, call: Call, bound: nat)
    requires log.current <= bound && (forall e | e in log.events :: e.level <= bound)
    requires bound == 0 ==> log.events == []
    requires call.LevelCall? && 0 <= call.level <= 4 ==> call.level <= bound
    ensures var after := Step(log, call);
      && after.current <= bound
      && (forall e | e in after.events :: e.level <= bound) && (bound == 0 ==> after.events == [])
  {
  }

  // Identifiers

  function Ids(events: seq<Event>): (ids: seq<nat>)
    ensures |ids| == |events| && forall k | 0 <= k < |ids| :: ids[k] == events[k].id
  {
    seq(|events|, k requires 0 <= k < |events| => events[k].id)
  }

  lemma WrapAfter(first: nat, k: nat)
    requires k < ID_LIMIT
    ensures var id := first % ID_LIMIT;
      (first + k) % ID_LIMIT == if id + k < ID_LIMIT then id + k else id + k - ID_LIMIT
  {
  }

  lemma EventAt(log: Log, requests: seq<Request>, k: nat)
    requires HoldsLast(log, requests) && k < |log.events|
    ensures |log.events| <= MAX_LOGS && |log.events| <= |requests|
    ensures log.events[k].id == (1 + |requests| - |log.events| + k) % ID_LIMIT
  {
    hide Cut;
    var all, from := Numbered(requests, 1), |requests| - |log.events|;
    assert log.events[k] == all[from + k];
  }

  lemma IdAt(log: Log, requests: seq<Request>, k: nat)
    requires HoldsLast(log, requests) && k < |log.events|
    ensures |log.events| <= MAX_LOGS
    ensures var id := log.events[0].id;
      id < ID_LIMIT && log.events[k].id == if id + k < ID_LIMIT then id + k else id + k - ID_LIMIT
  {
    hide HoldsLast;
    EventAt(log, requests, 0);
    EventAt(log, requests, k);
    WrapAfter(1 + |requests| - |log.events|, k);
  }

  /** The identifiers in the log increase exactly if they do not wrap within it. */
  lemma IdsIncreaseIff(log: Log, requests: seq<Request>)
    requires HoldsLast(log, requests) && log.events != []
    ensures Increasing(Ids(log.events)) <==> log.events[0].id + |log.events| <= ID_LIMIT
  {
    var id, m := log.events[0].id, |log.events|;
    forall k | 0 <= k < m
      ensures log.events[k].id == if id + k < ID_LIMIT then id + k else id + k - ID_LIMIT
      ensures id < ID_LIMIT && m <= MAX_LOGS
    {
      IdAt(log, requests, k);
    }
    hide HoldsLast;
    if id + m > ID_LIMIT {
      var k := ID_LIMIT - id;
      assert Ids(log.events)[0] > Ids(log.events)[k];
    }
  }

  // Searching

  /** A type or user of 0 stands for any. */
  predicate Matches(e: Event, kind: nat, user: nat) {
    (kind == 0 || e.kind == kind) && (user == 0 || e.user == user)
  }

  function Matching(events: seq<Event>, kind: nat, user: nat): seq<nat> {
    if events == [] then []
    else
      var n := |events| - 1;
      Matching(events[..n], kind, user) + if Matches(events[n], kind, user) then [events[n].id] else []
  }

  /** What `audit_find_events` finds. */
  function Find(log: Log, kind: nat, user: nat, max: nat): (found: seq<nat>) {
    var all := Matching(log.events, kind, user);
    if |all| <= max then all else all[..max]
  }

  /** What matches is found, and only that. */
  lemma {:induction false} MatchingIs(events: seq<Event>, kind: nat, user: nat)
    ensures forall e | e in events && Matches(e, kind, user) :: e.id in Matching(events, kind, user)
    ensures forall id | id in Matching(events, kind, user) ::
      exists e :: e in events && Matches(e, kind, user) && e.id == id
  {
    if events != [] {
      var n := |events| - 1;
      MatchingIs(events[..n], kind, user);
      assert forall e | e in events :: e in events[..n] || e == events[n];
      forall id | id in Matching(events, kind, user)
        ensures exists e :: e in events && Matches(e, kind, user) && e.id == id
      {
        if id in Matching(events[..n], kind, user) {
          var e :| e in events[..n] && Matches(e, kind, user) && e.id == id;
          assert e in events;
        } else {
          assert events[n] in events;
        }
      }
    }
  }

  lemma MatchesBelow(events: seq<Event>, n: nat, kind: nat, user: nat, id: nat)
    requires n < |events| && Increasing(Ids(events)) && id in Matching(events[..n], kind, user)
    ensures id < events[n].id
  {
    MatchingIs(events[..n], kind, user);
    hide Matches, Matching;
    var e :| e in events[..n] && Matches(e, kind, user) && e.id == id;
    var k :| 0 <= k < n && events[..n][k] == e;
    assert Ids(events)[k] < Ids(events)[n];
  }

  lemma {:induction false} MatchingIncreases(events: seq<Event>, kind: nat, user: nat)
    requires Increasing(Ids(events))
    ensures Increasing(Matching(events, kind, user))
  {
    if events != [] {
      var n := |events| - 1;
      var before := Matching(events[..n], kind, user);
      assert forall k | 0 <= k < n :: Ids(events)[k] == Ids(events[..n])[k];
      MatchingIncreases(events[..n], kind, user);
      hide Matches, Ids;
      forall i | 0 <= i < |before|
        ensures before[i] < events[n].id
      {
        MatchesBelow(events, n, kind, user, before[i]);
      }
    }
  }

  /** A search returns the identifiers of the first matching events, in strictly increasing
      order unless they wrap within the log, and of all of them if there are not too many. */
  lemma FindIncreases(log: Log, requests: seq<Request>, kind: nat, user: nat, max: nat)
    requires HoldsLast(log, requests) && log.events != [] && log.events[0].id + |log.events| <= ID_LIMIT
    ensures var found := Find(log, kind, user, max);
      && Increasing(found) && |found| <= max
      && (forall id | id in found ::
            exists e :: e in log.events && e.id == id && kind in {0, e.kind} && user in {0, e.user})
      && (forall e | e in log.events && kind in {0, e.kind} && user in {0, e.user} ::
            e.id in found || (|found| == max && forall id | id in found :: id < e.id))
  {
    IdsIncreaseIff(log, requests);
    MatchingIncreases(log.events, kind, user);
    MatchingIs(log.events, kind, user);
    hide HoldsLast, Matching;
    var all, found := Matching(log.events, kind, user), Find(log, kind, user, max);
    FirstOf(all, max);
    forall id | id in found
      ensures exists e :: e in log.events && e.id == id && kind in {0, e.kind} && user in {0, e.user}
    {
      assert id in all;
      var e :| e in log.events && Matches(e, kind, user) && e.id == id;
    }
  }

  lemma FirstOf(all: seq<nat>, max: nat)
    requires Increasing(all)
    ensures var found := if |all| <= max then all else all[..max];
      && Increasing(found) && (forall id | id in found :: id in all)
      && (forall id | id in all :: id in found || (|found| == max && forall other | other in found :: other < id))
  {
  }
}
