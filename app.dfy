/**
 * The chat bot's command handler (App.tsx, executeCommand): the application
 * holds the list of every clock event; a recognised CLOCK_IN or CLOCK_OUT
 * is refused or appends exactly one event, and STATUS reports the user's
 * summary from the roster. The clock (`now`) and the id Date.now() would
 * give the new event are parameters.
 */
module App {
  import opened Types
  import opened Timeline
  import opened EmployeeSummaries

  /** The fixed roster (App.tsx:10-15). */
  const MockUsers: seq<User> := [
    User("u1", "AlexEngineer", "https://picsum.photos/id/64/100/100", Employee),
    User("u2", "SarahDesign", "https://picsum.photos/id/65/100/100", Employee),
    User("u3", "MikeManager", "https://picsum.photos/id/103/100/100", Admin),
    User("u4", "DevDave", "https://picsum.photos/id/177/100/100", Employee)
  ]

  /** What the bot answers; the wording of each message is not modelled. */
  datatype Reply =
    | AlreadyClockedIn(since: int)
    | ClockedIn(at: int)
    | NotClockedIn
    | ClockedOut(at: int, sessionHours: real)
    | StatusReport(stats: EmployeeStats)
    | NoData
    | Help

  /**
   * The instant a command takes effect: `now` moved back by the offset the
   * user gave ("I started 5 minutes ago"); an absent or zero offset leaves
   * it at `now`, a negative one moves it forward.
   */
  function EffectiveTime(now: int, timeOffsetMinutes: Option<int>): (t: int)
    ensures timeOffsetMinutes.None? ==> t == now
    ensures timeOffsetMinutes.Some? ==> now - t == timeOffsetMinutes.value * MsPerMinute
  {
    match timeOffsetMinutes
    case None => now
    case Some(offset) => if offset == 0 then now else now - offset * MsPerMinute
  }

  /** The first roster entry with the given id (Array.prototype.find). */
  function FindUser(users: seq<User>, userId: string): (r: Option<User>)
    ensures r.None? <==> forall i :: 0 <= i < |users| ==> users[i].id != userId
    ensures r.Some? ==> exists i :: 0 <= i < |users| && users[i] == r.value && r.value.id == userId &&
                          (forall j :: 0 <= j < i ==> users[j].id != userId)
  {
    if users == [] then None
    else if users[0].id == userId then Some(users[0])
    else
      var r := FindUser(users[1..], userId);
      assert r.Some? ==> exists i :: 1 <= i < |users| && users[i] == r.value && r.value.id == userId &&
                           (forall j :: 1 <= j < i ==> users[j].id != userId) by {
        if r.Some? {
          var i :| 0 <= i < |users| - 1 && users[1..][i] == r.value && r.value.id == userId
            && forall j :: 0 <= j < i ==> users[1..][j].id != userId;
          assert users[i + 1] == r.value;
          forall j | 1 <= j < i + 1 ensures users[j].id != userId {
            assert users[j] == users[1..][j - 1];
          }
        }
      }
      r
  }

  /** The first summary with the given user id (Array.prototype.find). */
  function FindStats(stats: seq<EmployeeStats>, userId: string): (r: Option<EmployeeStats>)
    ensures r.None? <==> forall i :: 0 <= i < |stats| ==> stats[i].userId != userId
    ensures r.Some? ==> exists i :: 0 <= i < |stats| && stats[i] == r.value && r.value.userId == userId &&
                          (forall j :: 0 <= j < i ==> stats[j].userId != userId)
  {
    if stats == [] then None
    else if stats[0].userId == userId then Some(stats[0])
    else
      var r := FindStats(stats[1..], userId);
      assert r.None? <==> forall i :: 1 <= i < |stats| ==> stats[i].userId != userId by {
        assert forall i :: 1 <= i < |stats| ==> stats[i] == stats[1..][i - 1];
      }
      assert r.Some? ==> exists i :: 1 <= i < |stats| && stats[i] == r.value && r.value.userId == userId &&
                           (forall j :: 1 <= j < i ==> stats[j].userId != userId) by {
        if r.Some? {
          var i :| 0 <= i < |stats| - 1 && stats[1..][i] == r.value && r.value.userId == userId
            && forall j :: 0 <= j < i ==> stats[1..][j].userId != userId;
          assert stats[i + 1] == r.value;
          forall j | 1 <= j < i + 1 ensures stats[j].userId != userId {
            assert stats[j] == stats[1..][j - 1];
          }
        }
      }
      r
  }

  /**
   * Looking a user up among the roster's summaries finds the summary of the
   * first roster entry with that id, and nothing when no entry has it.
   */
  lemma {:induction false} FindStatsOfSummaries(users: seq<User>, stats: seq<EmployeeStats>, logs: seq<TimeLog>, now: int, userId: string)
    requires |stats| == |users|
    requires forall i :: 0 <= i < |users| ==> stats[i] == EmployeeSummary(users[i], logs, now)
    ensures FindStats(stats, userId) ==
      match FindUser(users, userId)
      case None => None
      case Some(u) => Some(EmployeeSummary(u, logs, now))
  {
    if users != [] {
      FindStatsOfSummaries(users[1..], stats[1..], logs, now, userId);
    }
  }

  /** The answer to STATUS from the roster's summaries. */
  function StatusReply(users: seq<User>, userId: string, logs: seq<TimeLog>, now: int): Reply {
    match FindUser(users, userId)
    case None => NoData
    case Some(u) => StatusReport(EmployeeSummary(u, logs, now))
  }

  /**
   * STATUS for a roster member reports that member's own summary; for an
   * id outside the roster it reports that there is no data.
   */
  lemma StatusReplyOfRoster(userId: string, logs: seq<TimeLog>, now: int)
    ensures forall u :: u in MockUsers && u.id == userId ==>
      StatusReply(MockUsers, userId, logs, now) == StatusReport(EmployeeSummary(u, logs, now))
    ensures (forall u :: u in MockUsers ==> u.id != userId) ==>
      StatusReply(MockUsers, userId, logs, now) == NoData
  {
    forall u | u in MockUsers && u.id == userId
      ensures StatusReply(MockUsers, userId, logs, now) == StatusReport(EmployeeSummary(u, logs, now))
    {
      MockUsersDistinct();
      FindUserUnique(MockUsers, u);
    }
  }

  /** No two roster entries share an id. */
  predicate DistinctIds(users: seq<User>) {
    forall i, j :: 0 <= i < j < |users| ==> users[i].id != users[j].id
  }

  /** The fixed roster has no repeated ids. */
  lemma MockUsersDistinct()
    ensures DistinctIds(MockUsers)
  {
  }

  /** In a roster without repeated ids, looking up a member's id finds that member. */
  lemma FindUserUnique(users: seq<User>, u: User)
    requires DistinctIds(users) && u in users
    ensures FindUser(users, u.id) == Some(u)
  {
    var r := FindUser(users, u.id);
    var i :| 0 <= i < |users| && users[i] == r.value && r.value.id == u.id;
    var j :| 0 <= j < |users| && users[j] == u;
  }

  /**
   * Clock-out replies report the session length in hours to two decimals,
   * within half a hundredth of the exact length.
   */
  function SessionHours(effective: int, start: int): (h: real)
    ensures -0.005 <= h - (effective - start) as real / (MsPerHour as real) <= 0.005
  {
    Round2((effective - start) as real / (MsPerHour as real))
  }

  /** The application state the handler works on: every clock event so far. */
  class AppState {
    var logs: seq<TimeLog>

    /** The log list starts empty (App.tsx:35). */
    constructor()
      ensures logs == []
    {
      logs := [];
    }

    /**
     * executeCommand: a CLOCK_IN is refused while the user is working and
     * otherwise appends one CLOCK_IN at the effective time; a CLOCK_OUT is
     * refused while the user is not working and otherwise appends one
     * CLOCK_OUT and reports the time since the user's last log; STATUS and
     * anything else leave the logs as they are. Working means that the
     * user's last log in time order is a CLOCK_IN.
     */
    method ExecuteCommand(intent: BotIntent, timeOffsetMinutes: Option<int>, user: User, now: int, newId: string)
      returns (reply: Reply)
      modifies this
      ensures var t := EffectiveTime(now, timeOffsetMinutes);
        var last := LastLog(user.id, old(logs));
        var working := IsWorking(user.id, old(logs));
        match intent
        case IntentClockIn =>
          if working then logs == old(logs) && reply == AlreadyClockedIn(last.value.timestamp)
          else logs == old(logs) + [TimeLog(newId, user.id, ClockIn, t, None)] && reply == ClockedIn(t)
        case IntentClockOut =>
          if !working then logs == old(logs) && reply == NotClockedIn
          else (logs == old(logs) + [TimeLog(newId, user.id, ClockOut, t, None)] &&
                reply == ClockedOut(t, SessionHours(t, last.value.timestamp)))
        case IntentStatus =>
          logs == old(logs) && reply == StatusReply(MockUsers, user.id, old(logs), now)
        case IntentUnknown =>
          logs == old(logs) && reply == Help
    {
      var effectiveTime := EffectiveTime(now, timeOffsetMinutes);
      var userLogs := SortByTime(FilterUser(logs, user.id));
      var isWorking := |userLogs| > 0 && userLogs[|userLogs| - 1].kind == ClockIn;

      if intent == IntentClockIn {
        if isWorking {
          return AlreadyClockedIn(userLogs[|userLogs| - 1].timestamp);
        }
        var newLog := TimeLog(newId, user.id, ClockIn, effectiveTime, None);
        logs := logs + [newLog];
        return ClockedIn(effectiveTime);
      }

      if intent == IntentClockOut {
        if !isWorking {
          return NotClockedIn;
        }
        var newLog := TimeLog(newId, user.id, ClockOut, effectiveTime, None);
        var lastLog := userLogs[|userLogs| - 1];
        logs := logs + [newLog];
        return ClockedOut(effectiveTime, SessionHours(effectiveTime, lastLog.timestamp));
      }

      if intent == IntentStatus {
        var stats := CalculateEmployeeStats(logs, MockUsers, now);
        FindStatsOfSummaries(MockUsers, stats, logs, now, user.id);
        var myStats := FindStats(stats, user.id);
        if myStats.None? {
          return NoData;
        }
        return StatusReport(myStats.value);
      }

      return Help;
    }
  }

  // ---------------------------------------------------------------------
  // What the accepted commands do to the user's status.

  /**
   * An accepted CLOCK_IN stamped no earlier than any of the user's logs
   * leaves the user working, and every other user's timeline as it was.
   */
  lemma ClockInMakesWorking(logs: seq<TimeLog>, x: TimeLog)
    requires x.kind == ClockIn
    requires forall l :: l in logs && l.userId == x.userId ==> l.timestamp <= x.timestamp
    ensures IsWorking(x.userId, logs + [x])
    ensures forall id :: id != x.userId ==> UserTimeline(id, logs + [x]) == UserTimeline(id, logs)
  {
    TimelineAppendLatest(logs, x);
    forall id | id != x.userId ensures UserTimeline(id, logs + [x]) == UserTimeline(id, logs) {
      TimelineOtherUser(logs, x, id);
    }
  }

  /** An accepted CLOCK_OUT stamped no earlier than any of the user's logs ends the session. */
  lemma ClockOutEndsWork(logs: seq<TimeLog>, x: TimeLog)
    requires x.kind == ClockOut
    requires forall l :: l in logs && l.userId == x.userId ==> l.timestamp <= x.timestamp
    ensures !IsWorking(x.userId, logs + [x])
    ensures LastLog(x.userId, logs + [x]) == Some(x)
  {
    TimelineAppendLatest(logs, x);
  }

  /**
   * A CLOCK_IN backdated to before the user's last CLOCK_OUT is accepted
   * (the user is not working), yet the user is still not working
   * afterwards: the new log sorts in ahead of the CLOCK_OUT, which stays
   * the last log.
   */
  lemma BackdatedClockInLeavesOffline(logs: seq<TimeLog>, x: TimeLog)
    requires x.kind == ClockIn
    requires LastLog(x.userId, logs).Some? && LastLog(x.userId, logs).value.kind == ClockOut
    requires x.timestamp < LastLog(x.userId, logs).value.timestamp
    ensures !IsWorking(x.userId, logs)
    ensures !IsWorking(x.userId, logs + [x])
  {
    LastLogIgnoresEarlier(logs, x);
  }
}
