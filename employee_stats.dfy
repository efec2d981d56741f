/**
 * calculateEmployeeStats (services/timeService.ts): one summary per roster
 * user, in roster order. The hours are the sums of the user's daily figures
 * (calculateDailyStats), rounded to two decimals; the status and the last
 * action come from the user's last log in time order.
 */
module EmployeeSummaries {
  import opened Types
  import opened Timeline
  import opened DailyStats

  // ---------------------------------------------------------------------
  // Rounding to two decimals (toFixed(2) read back by parseFloat).

  /**
   * The number of hundredths nearest to `x`, ties away from zero, over a
   * hundred: toFixed rounds the magnitude and keeps the sign. It moves a
   * value by at most half a hundredth.
   */
  function Round2(x: real): (r: real)
    ensures -0.005 <= r - x <= 0.005
  {
    if x >= 0.0 then (x * 100.0 + 0.5).Floor as real / 100.0
    else -(((-x) * 100.0 + 0.5).Floor as real / 100.0)
  }

  /** The rounded value is a whole number of hundredths. */
  lemma Round2Cents(x: real)
    ensures (Round2(x) * 100.0).Floor as real == Round2(x) * 100.0
  {
    var k := if x >= 0.0 then (x * 100.0 + 0.5).Floor else -(((-x) * 100.0 + 0.5).Floor);
    assert Round2(x) * 100.0 == k as real;
  }

  /** A value that already is a whole number of hundredths is kept as it is. */
  lemma Round2Exact(n: int)
    ensures Round2(n as real / 100.0) == n as real / 100.0
  {
    var x := n as real / 100.0;
    if n >= 0 {
      assert x * 100.0 + 0.5 == n as real + 0.5;
      assert (n as real + 0.5).Floor == n;
    } else {
      assert (-x) * 100.0 + 0.5 == (-n) as real + 0.5;
      assert ((-n) as real + 0.5).Floor == -n;
    }
  }

  lemma FloorMonotone(a: real, b: real)
    requires a <= b
    ensures a.Floor <= b.Floor
  {
  }

  /** Rounding keeps the order of its inputs. */
  lemma Round2Monotone(x: real, y: real)
    requires x <= y
    ensures Round2(x) <= Round2(y)
  {
    if x >= 0.0 {
      FloorMonotone(x * 100.0 + 0.5, y * 100.0 + 0.5);
    } else if y < 0.0 {
      FloorMonotone((-y) * 100.0 + 0.5, (-x) * 100.0 + 0.5);
    } else {
      assert Round2(x) <= 0.0;
      assert Round2(y) >= 0.0;
    }
  }

  // ---------------------------------------------------------------------
  // The two reductions over the daily figures (timeService.ts:24-25).

  /** The days' hours, in minutes, summed left to right. */
  function WorkedMinutes(days: seq<DailyStat>): real {
    if days == [] then 0.0
    else WorkedMinutes(days[..|days| - 1]) + days[|days| - 1].totalHours * 60.0
  }

  /** The days' overtime, in minutes, summed left to right. */
  function OvertimeMinutes(days: seq<DailyStat>): real {
    if days == [] then 0.0
    else OvertimeMinutes(days[..|days| - 1]) + days[|days| - 1].overtimeHours * 60.0
  }

  /** Days with 0 <= overtime <= hours sum to 0 <= overtime minutes <= worked minutes. */
  lemma {:induction false} OvertimeWithinWorked(days: seq<DailyStat>)
    requires forall i :: 0 <= i < |days| ==> 0.0 <= days[i].overtimeHours <= days[i].totalHours
    ensures 0.0 <= OvertimeMinutes(days) <= WorkedMinutes(days)
  {
    if days != [] {
      OvertimeWithinWorked(days[..|days| - 1]);
    }
  }

  // ---------------------------------------------------------------------
  // The summary of one roster user.

  /**
   * A user's summary from their daily figures and their last log: the
   * figures summed and rounded, working when the last log is a CLOCK_IN,
   * and the last log's timestamp as the last action.
   */
  function Summarize(user: User, days: seq<DailyStat>, last: Option<TimeLog>): EmployeeStats {
    EmployeeStats(
      user.id, user.username, user.avatar,
      Round2(WorkedMinutes(days) / 60.0),
      Round2(OvertimeMinutes(days) / 60.0),
      if last.Some? && last.value.kind == ClockIn then Working else Offline,
      if last.Some? then Some(last.value.timestamp) else None)
  }

  /** What calculateEmployeeStats reports for `user`, with the clock reading `now`. */
  function EmployeeSummary(user: User, logs: seq<TimeLog>, now: int): EmployeeStats {
    Summarize(user, DailyStatsOf(user.id, logs, now), LastLog(user.id, logs))
  }

  /**
   * calculateEmployeeStats: for each roster user in turn, the daily figures
   * are computed and summed, and the status and last action are read off
   * the user's last log in time order.
   */
  method CalculateEmployeeStats(logs: seq<TimeLog>, users: seq<User>, now: int) returns (stats: seq<EmployeeStats>)
    ensures |stats| == |users|
    ensures forall i :: 0 <= i < |users| ==> stats[i] == EmployeeSummary(users[i], logs, now)
  {
    stats := [];
    for i := 0 to |users|
      invariant |stats| == i
      invariant forall j :: 0 <= j < i ==> stats[j] == EmployeeSummary(users[j], logs, now)
    {
      var entry := SummarizeUser(users[i], logs, now);
      stats := stats + [entry];
    }
  }

  /** The body of the roster loop (timeService.ts:10-44) for one user. */
  method SummarizeUser(user: User, logs: seq<TimeLog>, now: int) returns (entry: EmployeeStats)
    ensures entry == EmployeeSummary(user, logs, now)
  {
    var userLogs := SortByTime(FilterUser(logs, user.id));
    var dailyStats := CalculateDailyStats(user.id, logs, now);
    entry := BuildEntry(user, dailyStats, userLogs);
    LastOfTimeline(user.id, logs, userLogs);
    SummaryOfParts(user, logs, now, dailyStats, LastLog(user.id, logs), entry);
  }

  /**
   * The summary entry from the user's daily figures and sorted logs
   * (timeService.ts:24-44): the two sums, rounded, and the status and last
   * action read off the last log.
   */
  method BuildEntry(user: User, dailyStats: seq<DailyStat>, userLogs: seq<TimeLog>) returns (entry: EmployeeStats)
    ensures entry == Summarize(user, dailyStats, if |userLogs| > 0 then Some(userLogs[|userLogs| - 1]) else None)
  {
    var totalWorkedMinutes := WorkedMinutes(dailyStats);
    var totalOvertimeMinutes := OvertimeMinutes(dailyStats);
    var status := Offline;
    var lastAction: Option<int> := None;
    if |userLogs| > 0 {
      var lastLog := userLogs[|userLogs| - 1];
      lastAction := Some(lastLog.timestamp);
      if lastLog.kind == ClockIn {
        status := Working;
      }
    }
    entry := EmployeeStats(user.id, user.username, user.avatar,
      Round2(totalWorkedMinutes / 60.0), Round2(totalOvertimeMinutes / 60.0), status, lastAction);
    SummarizeFields(user, dailyStats, if |userLogs| > 0 then Some(userLogs[|userLogs| - 1]) else None, entry);
  }

  /** The user's last log is the last element of their sorted logs. */
  lemma LastOfTimeline(userId: string, logs: seq<TimeLog>, userLogs: seq<TimeLog>)
    requires userLogs == SortByTime(FilterUser(logs, userId))
    ensures LastLog(userId, logs) == if |userLogs| > 0 then Some(userLogs[|userLogs| - 1]) else None
  {
  }

  lemma SummaryOfParts(user: User, logs: seq<TimeLog>, now: int, days: seq<DailyStat>, last: Option<TimeLog>, entry: EmployeeStats)
    requires days == DailyStatsOf(user.id, logs, now) && last == LastLog(user.id, logs)
    requires entry == Summarize(user, days, last)
    ensures entry == EmployeeSummary(user, logs, now)
  {
  }

  lemma SummarizeFields(user: User, days: seq<DailyStat>, last: Option<TimeLog>, entry: EmployeeStats)
    requires entry.userId == user.id && entry.username == user.username && entry.avatar == user.avatar
    requires entry.totalHours == Round2(WorkedMinutes(days) / 60.0)
    requires entry.overtimeHours == Round2(OvertimeMinutes(days) / 60.0)
    requires entry.status == if last.Some? && last.value.kind == ClockIn then Working else Offline
    requires entry.lastAction == if last.Some? then Some(last.value.timestamp) else None
    ensures entry == Summarize(user, days, last)
  {
  }

  /**
   * A user is reported working exactly when their latest log (the largest
   * timestamp, the one logged last among equals) is a CLOCK_IN, and their
   * last action is that log's timestamp; a user without logs is offline
   * with no last action.
   */
  lemma SummaryStatus(user: User, logs: seq<TimeLog>, now: int)
    ensures var e := EmployeeSummary(user, logs, now);
      var f := FilterUser(logs, user.id);
      && (|f| == 0 ==> e.status == Offline && e.lastAction == None)
      && (|f| > 0 ==>
            && (e.status == Working <==> f[LatestIndex(f)].kind == ClockIn)
            && e.lastAction == Some(f[LatestIndex(f)].timestamp))
  {
    LastLogIsLatest(user.id, logs);
  }

  /** A user with no logs gets zero hours, zero overtime, offline and no last action. */
  lemma IdleUser(user: User, logs: seq<TimeLog>, now: int)
    requires forall l :: l in logs ==> l.userId != user.id
    ensures EmployeeSummary(user, logs, now) == EmployeeStats(user.id, user.username, user.avatar, 0.0, 0.0, Offline, None)
  {
    var s := UserTimeline(user.id, logs);
    UserTimelineCount(user.id, logs);
    assert |s| == 0 by {
      assert forall l :: multiset(s)[l] == 0;
    }
    assert DailyStatsOf(user.id, logs, now) == [];
    Round2Exact(0);
  }

  /**
   * Daily figures with 0 <= overtime <= hours give reported totals with
   * 0 <= overtime <= hours.
   */
  lemma SummarizeBounds(user: User, days: seq<DailyStat>, last: Option<TimeLog>)
    requires forall i :: 0 <= i < |days| ==> 0.0 <= days[i].overtimeHours <= days[i].totalHours
    ensures var e := Summarize(user, days, last); 0.0 <= e.overtimeHours <= e.totalHours
  {
    OvertimeWithinWorked(days);
    Round2Exact(0);
    Round2Monotone(0.0, OvertimeMinutes(days) / 60.0);
    Round2Monotone(OvertimeMinutes(days) / 60.0, WorkedMinutes(days) / 60.0);
  }

  /**
   * When none of the user's logs is later than `now`, the reported hours
   * and overtime are not negative, and the overtime is not more than the
   * hours.
   */
  lemma SummaryHoursBounds(user: User, logs: seq<TimeLog>, now: int)
    requires forall l :: l in logs && l.userId == user.id ==> l.timestamp <= now
    ensures var e := EmployeeSummary(user, logs, now);
      0.0 <= e.overtimeHours <= e.totalHours
  {
    DailyHoursNonNegative(user.id, logs, now);
    SummarizeBounds(user, DailyStatsOf(user.id, logs, now), LastLog(user.id, logs));
  }

  /** Logs of other users change nothing in a user's summary. */
  lemma OtherUsersIgnored(user: User, logs: seq<TimeLog>, x: TimeLog, now: int)
    requires x.userId != user.id
    ensures EmployeeSummary(user, logs + [x], now) == EmployeeSummary(user, logs, now)
  {
    TimelineOtherUser(logs, x, user.id);
    assert DailyStatsOf(user.id, logs + [x], now) == DailyStatsOf(user.id, logs, now);
    assert LastLog(user.id, logs + [x]) == LastLog(user.id, logs);
  }

  /**
   * Two days of 8.5 and 9 hours add up to 17.5 hours with 1.5 hours of
   * overtime.
   */
  lemma TwoDaySums(d1: DailyStat, d2: DailyStat)
    requires d1.totalHours == 8.5 && d1.overtimeHours == 0.5
    requires d2.totalHours == 9.0 && d2.overtimeHours == 1.0
    ensures Round2(WorkedMinutes([d1, d2]) / 60.0) == 17.5
    ensures Round2(OvertimeMinutes([d1, d2]) / 60.0) == 1.5
  {
    assert [d1, d2][..1] == [d1] && [d1][..0] == [];
    assert WorkedMinutes([d1]) == 510.0 && OvertimeMinutes([d1]) == 30.0;
    assert WorkedMinutes([d1, d2]) == 1050.0 && OvertimeMinutes([d1, d2]) == 90.0;
    Round2Exact(1750);
    Round2Exact(150);
  }
}
