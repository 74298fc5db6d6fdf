/** The event array of audit.c, refining the log of AuditSpec. */
module Audit {
  import opened AuditSpec
  import opened Prelude

  /** The elements after those from the second to the i-th have moved forward by one. */
  ghost function Shifted(events: seq<Event>, i: nat): (r: seq<Event>)
    requires 1 <= i <= |events|
    ensures |r| == |events|
  {
    events[1..i] + events[i - 1..]
  }

  lemma ShiftedStep(events: seq<Event>, i: nat)
    requires 1 <= i < |events|
    ensures Shifted(events, i)[i] == events[i]
    ensures Shifted(events, i)[i - 1 := events[i]] == Shifted(events, i + 1)
  {
  }

  class AuditLog {
    var auditLogs: array?<Event>
    var auditCount: nat
    var nextEventId: nat
    var currentLevel: nat

    ghost var log: Log

    ghost predicate Valid()
      reads this, auditLogs
    {
      && (log.ready <==> auditLogs != null)
      && (auditLogs != null ==>
          auditLogs.Length == MAX_LOGS && auditCount <= MAX_LOGS && auditLogs[..auditCount] == log.events)
      && (auditLogs == null ==> auditCount == 0 && log.events == [])
      && nextEventId == log.nextId < ID_LIMIT && currentLevel == log.current <= VERBOSE
    }

    /** The variables before `audit_init`. */
    constructor ()
      ensures Valid() && log == Log([], 1, 3, false)
    {
      auditLogs, auditCount, nextEventId, currentLevel := null, 0, 1, INFO;
      log := Log([], 1, INFO, false);
    }

    /** `audit_init`. */
    method Init(tick: nat)
      requires Valid()
      modifies this
      ensures Valid() && fresh(auditLogs) && log == AuditSpec.Init(old(log).current, tick)
    {
      auditLogs := new Event[1024];
      auditCount := 0;
      nextEventId := 1;
      log := Log([], 1, currentLevel, true);
      var status := Add(Boot(tick));
    }

    /** `audit_set_level`. */
    method SetLevel(level: int, tick: nat)
      requires Valid()
      modifies this, auditLogs
      ensures Valid() && auditLogs == old(auditLogs) && log == AuditSpec.SetLevel(old(log), level, tick)
    {
      if level >= NONE && level <= VERBOSE {
        currentLevel := level;
        log := log.(current := level);
        var status := Add(LevelChange(tick));
      }
    }

    /** The shift of `audit_log`, by which the oldest event goes. */
    static method DropFirst(logs: array<Event>)
      requires logs.Length == MAX_LOGS
      modifies logs
      ensures logs[..MAX_LOGS - 1] == old(logs[1..])
    {
      for i := 1 to 1024
        invariant logs[..] == Shifted(old(logs[..]), i)
      {
        ShiftedStep(old(logs[..]), i);
        logs[i - 1] := logs[i];
      }
    }

    /** The copying of the message in `audit_log`. */
    static method CopyMessage(message: string) returns (copy: string)
      ensures copy == Cut(message)
    {
      copy := [];
      var i := 0;
      while i < |message| && i < 255
        invariant 0 <= i <= |message| && i <= 255 && copy == message[..i]
      {
        copy := copy + [message[i]];
        i := i + 1;
      }
    }

    /** `audit_log`. */
    method Add(r: Request) returns (status: int)
      requires Valid()
      modifies this, auditLogs
      ensures Valid() && auditLogs == old(auditLogs)
      ensures (log, status) == AuditSpec.Add(old(log), r)
    {
      hide Cut;
      if r.level > currentLevel || currentLevel == NONE {
        return 0;
      }
      if auditLogs == null {
        return -1;
      }
      if auditCount >= 1024 {
        DropFirst(auditLogs);
        auditCount := 1023;
      }
      ghost var kept := auditLogs[..auditCount];
      assert kept == if |log.events| >= MAX_LOGS then log.events[1..MAX_LOGS] else log.events;
      var message := CopyMessage(r.message);
      auditLogs[auditCount] := Event(nextEventId, r.tick, r.kind, r.level, r.user, message);
      nextEventId := (nextEventId + 1) % ID_LIMIT;
      auditCount := auditCount + 1;
      assert auditLogs[..auditCount] == kept + [Recorded(r, log.nextId)];
      log := AuditSpec.Add(log, r).0;
      status := 0;
    }

    /** `audit_find_events`. */
    method FindEvents(kind: nat, user: nat, results: array?<nat>, maxResults: nat) returns (found: int)
      requires Valid() && (results != null ==> maxResults <= results.Length && (results as object) != auditLogs)
      modifies results
      ensures if !log.ready || log.events == [] || results == null then found == -1
              else
                var ids := Find(log, kind, user, maxResults);
                && found == |ids| <= results.Length && results[..found] == ids
                && results[found..] == old(results[found..])
      ensures found == -1 && results != null ==> results[..] == old(results[..])
    {
      if auditLogs == null || auditCount == 0 || results == null {
        return -1;
      }
      hide Matching;
      MatchingNothing(log.events, kind, user);
      found := 0;
      var i := 0;
      ghost var results0 := results[..];
      while i < auditCount && found < maxResults
        invariant 0 <= i <= auditCount && 0 <= found <= maxResults
        invariant auditLogs[..auditCount] == log.events
        invariant results[..found] == Matching(log.events[..i], kind, user)
        invariant results[found..] == results0[found..]
      {
        var event := auditLogs[i];
        assert event == log.events[i];
        MatchingNext(log.events, i, kind, user);
        if (kind == 0 || event.kind == kind) && (user == 0 || event.user == user) {
          SuffixesAgree(results[..], results0, found, found + 1);
          results[found] := event.id;
          found := found + 1;
        }
        i := i + 1;
      }
      MatchingPrefix(log.events, i, kind, user);
    }
  }

  lemma MatchingNext(events: seq<Event>, i: nat, kind: nat, user: nat)
    requires i < |events|
    ensures Matching(events[..i + 1], kind, user) ==
      Matching(events[..i], kind, user) + if Matches(events[i], kind, user) then [events[i].id] else []
  {
    assert events[..i + 1][..i] == events[..i];
  }

  lemma MatchingNothing(events: seq<Event>, kind: nat, user: nat)
    ensures Matching(events[..0], kind, user) == [] && events[..|events|] == events
  {
  }

  /** What has been found stays in front of what is found later. */
  lemma {:induction false} MatchingPrefix(events: seq<Event>, i: nat, kind: nat, user: nat)
    requires i <= |events|
    ensures Matching(events[..i], kind, user) <= Matching(events, kind, user)
  {
    if i < |events| {
      var n := |events| - 1;
      MatchingPrefix(events[..n], i, kind, user);
      assert events[..n][..i] == events[..i];
    } else {
      assert events[..i] == events;
    }
  }
}
