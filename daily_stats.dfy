/**
 * calculateDailyStats (services/timeService.ts): one user's logs, bucketed
 * by calendar day, with each closed session's minutes credited to the day
 * it started and a still-open session credited up to "now" when it started
 * on the same day as "now".
 *
 * The specification (DailyStatsOf) is stated on the user's sorted timeline:
 * a session is a CLOCK_IN IMMEDIATELY followed by a CLOCK_OUT, because any
 * log in between would either replace the open start (a CLOCK_IN) or close
 * it (a CLOCK_OUT). The method CalculateDailyStats is the source's walk with
 * its mutable map and "current session start", proved equal to it.
 */
module DailyStats {
  import opened Types
  import opened Timeline

  /**
   * differenceInMinutes(later, earlier): whole minutes between two instants,
   * truncated toward zero.
   */
  function MinutesBetween(later: int, earlier: int): (r: int)
    ensures later >= earlier ==> 0 <= r && r * MsPerMinute <= later - earlier < (r + 1) * MsPerMinute
    ensures later < earlier ==> r <= 0 && (r - 1) * MsPerMinute < later - earlier <= r * MsPerMinute
  {
    var diff := later - earlier;
    if diff >= 0 then diff / MsPerMinute else -((-diff) / MsPerMinute)
  }

  /** Rounding toward zero in both directions makes MinutesBetween antisymmetric. */
  lemma MinutesBetweenAntisymmetric(later: int, earlier: int)
    ensures MinutesBetween(earlier, later) == -MinutesBetween(later, earlier)
  {
  }

  /** The days s[..n] has logs on, each once, in order of first log. */
  function Days(s: seq<TimeLog>, n: nat): seq<int>
    requires n <= |s|
  {
    if n == 0 then []
    else
      var d := DayOf(s[n - 1].timestamp);
      if d in Days(s, n - 1) then Days(s, n - 1) else Days(s, n - 1) + [d]
  }

  /** The logs of s[..n] on day `d`, in timeline order. */
  function DayLogs(s: seq<TimeLog>, d: int, n: nat): seq<TimeLog>
    requires n <= |s|
  {
    if n == 0 then []
    else if DayOf(s[n - 1].timestamp) == d then DayLogs(s, d, n - 1) + [s[n - 1]]
    else DayLogs(s, d, n - 1)
  }

  /**
   * What the pair (s[i], s[i + 1]) credits to day `d`: the session's minutes
   * when it is a CLOCK_IN followed by a CLOCK_OUT and the CLOCK_IN is on `d`.
   */
  function PairCredit(s: seq<TimeLog>, i: nat, d: int): int
    requires i + 1 < |s|
  {
    if s[i].kind == ClockIn && s[i + 1].kind == ClockOut && DayOf(s[i].timestamp) == d
    then MinutesBetween(s[i + 1].timestamp, s[i].timestamp)
    else 0
  }

  /** Minutes of the sessions closed within s[..n] that started on day `d`. */
  function ClosedMinutes(s: seq<TimeLog>, d: int, n: nat): int
    requires n <= |s|
  {
    if n < 2 then 0 else ClosedMinutes(s, d, n - 1) + PairCredit(s, n - 2, d)
  }

  /**
   * The running session's minutes up to `now`: only when the timeline ends
   * in a CLOCK_IN that is on day `d` and on the same day as `now`.
   */
  function OpenMinutes(s: seq<TimeLog>, d: int, now: int): int {
    if RunningToday(s, now) && DayOf(s[|s| - 1].timestamp) == d
    then MinutesBetween(now, s[|s| - 1].timestamp)
    else 0
  }

  /** The timeline ends in a CLOCK_IN on the same calendar day as `now`. */
  predicate RunningToday(s: seq<TimeLog>, now: int) {
    |s| > 0 && s[|s| - 1].kind == ClockIn && DayOf(s[|s| - 1].timestamp) == DayOf(now)
  }

  function DayMinutes(s: seq<TimeLog>, d: int, now: int): int {
    ClosedMinutes(s, d, |s|) + OpenMinutes(s, d, now)
  }

  /** One entry of the source's day map: minutes credited and logs seen. */
  datatype DayBucket = DayBucket(totalMinutes: int, logs: seq<TimeLog>)

  /** One map entry as returned (timeService.ts:102-110). */
  function ToDailyStat(date: int, b: DayBucket): (r: DailyStat)
    ensures r.date == date && r.totalHours * 60.0 == b.totalMinutes as real
    ensures r.overtimeHours >= 0.0 && r.overtimeHours >= r.totalHours - StandardWorkDayHours
    ensures r.overtimeHours == 0.0 || r.overtimeHours == r.totalHours - StandardWorkDayHours
    ensures multiset(r.logs) == multiset(b.logs) && SortedByTime(r.logs)
  {
    var totalHours := b.totalMinutes as real / 60.0;
    var overtimeHours := if 0.0 >= totalHours - StandardWorkDayHours then 0.0 else totalHours - StandardWorkDayHours;
    DailyStat(date, totalHours, overtimeHours, SortByTime(b.logs))
  }

  /** Puts `x` in front of every entry whose date is not later than its own. */
  function InsertByDateDesc(x: DailyStat, r: seq<DailyStat>): (q: seq<DailyStat>)
    ensures |q| == |r| + 1
  {
    if r == [] || x.date >= r[0].date then [x] + r else [r[0]] + InsertByDateDesc(x, r[1..])
  }

  /** The stable sort by date, newest first. */
  function SortByDateDesc(s: seq<DailyStat>): (r: seq<DailyStat>)
    ensures |r| == |s|
  {
    if s == [] then [] else InsertByDateDesc(s[0], SortByDateDesc(s[1..]))
  }

  /** The map's entries in insertion order, converted. */
  function MapEntries(m: map<int, DayBucket>, keys: seq<int>): seq<DailyStat>
    requires forall k :: k in keys ==> k in m
  {
    seq(|keys|, i requires 0 <= i < |keys| => ToDailyStat(keys[i], m[keys[i]]))
  }

  /** The map's entries in insertion order, converted, then sorted newest first. */
  function Finalize(m: map<int, DayBucket>, keys: seq<int>): seq<DailyStat>
    requires forall k :: k in keys ==> k in m
  {
    SortByDateDesc(MapEntries(m, keys))
  }

  /** The day `d` entry of the result. */
  function DayStat(s: seq<TimeLog>, d: int, now: int): DailyStat {
    ToDailyStat(d, DayBucket(DayMinutes(s, d, now), DayLogs(s, d, |s|)))
  }

  /** The entries of the timeline `s`, one per day, in order of first log. */
  function DayEntries(s: seq<TimeLog>, now: int): seq<DailyStat> {
    var days := Days(s, |s|);
    seq(|days|, i requires 0 <= i < |days| => DayStat(s, days[i], now))
  }

  /** What calculateDailyStats returns, with the clock reading `now`. */
  function DailyStatsOf(userId: string, logs: seq<TimeLog>, now: int): seq<DailyStat> {
    SortByDateDesc(DayEntries(UserTimeline(userId, logs), now))
  }

  /** A map that holds each day's bucket finalizes to the specified result. */
  lemma FinalizeBuckets(s: seq<TimeLog>, now: int, m: map<int, DayBucket>)
    requires forall d :: d in Days(s, |s|) ==> d in m && m[d] == DayBucket(DayMinutes(s, d, now), DayLogs(s, d, |s|))
    ensures Finalize(m, Days(s, |s|)) == SortByDateDesc(DayEntries(s, now))
  {
    var days := Days(s, |s|);
    var a, b := MapEntries(m, days), DayEntries(s, now);
    assert |a| == |b|;
    forall i | 0 <= i < |a| ensures a[i] == b[i] {
      assert days[i] in days;
    }
    assert a == b;
  }

  /** The walk's last step: a running session's minutes go to its start day. */
  lemma OpenSessionCredit(s: seq<TimeLog>, now: int, closed: map<int, DayBucket>, m: map<int, DayBucket>)
    requires forall d :: d in closed ==> closed[d] == DayBucket(ClosedMinutes(s, d, |s|), DayLogs(s, d, |s|))
    requires m.Keys == closed.Keys
    requires !RunningToday(s, now) ==> m == closed
    requires RunningToday(s, now) ==>
      var day := DayOf(s[|s| - 1].timestamp);
      day in closed ==> m == closed[day := closed[day].(totalMinutes := closed[day].totalMinutes + MinutesBetween(now, s[|s| - 1].timestamp))]
    requires RunningToday(s, now) && DayOf(s[|s| - 1].timestamp) !in closed ==> m == closed
    ensures forall d :: d in m ==> m[d] == DayBucket(DayMinutes(s, d, now), DayLogs(s, d, |s|))
  {
  }

  /**
   * calculateDailyStats: filter and sort the user's logs, walk them into the
   * day map, then convert and order the map's entries.
   */
  method CalculateDailyStats(userId: string, logs: seq<TimeLog>, now: int) returns (stats: seq<DailyStat>)
    ensures stats == DailyStatsOf(userId, logs, now)
  {
    var userLogs := SortByTime(FilterUser(logs, userId));
    var dailyMap, keys := WalkTimeline(userLogs, now);
    FinalizeBuckets(userLogs, now, dailyMap);
    stats := Finalize(dailyMap, keys);
  }

  /**
   * What the walk knows after the logs s[..k]: the keys inserted so far are
   * the days of s[..k], each day's bucket holds its logs and the minutes of
   * its sessions closed so far, and the open session's start is the last log
   * when that log is a CLOCK_IN.
   */
  ghost predicate WalkState(s: seq<TimeLog>, k: nat, m: map<int, DayBucket>, keys: seq<int>, start: Option<TimeLog>)
    requires k <= |s|
  {
    && keys == Days(s, k)
    && (forall d :: d in m <==> d in keys)
    && (forall d :: d in m ==> m[d] == DayBucket(ClosedMinutes(s, d, k), DayLogs(s, d, k)))
    && (forall d :: d !in m ==> ClosedMinutes(s, d, k) == 0 && DayLogs(s, d, k) == [])
    && start == if k > 0 && s[k - 1].kind == ClockIn then Some(s[k - 1]) else None
  }

  /**
   * The source's walk over the sorted logs (timeService.ts:55-100): the day
   * map and the order its keys were inserted in (a Map iterates in insertion
   * order) are updated log by log, with the start of the open session held
   * in a variable; a session still open at the end is credited up to `now`.
   */
  method WalkTimeline(userLogs: seq<TimeLog>, now: int) returns (dailyMap: map<int, DayBucket>, keys: seq<int>)
    ensures keys == Days(userLogs, |userLogs|)
    ensures forall d :: d in dailyMap <==> d in keys
    ensures forall d :: d in dailyMap ==> dailyMap[d] == DayBucket(DayMinutes(userLogs, d, now), DayLogs(userLogs, d, |userLogs|))
  {
    dailyMap, keys := map[], [];
    var currentSessionStart: Option<TimeLog> := None;
    var k := 0;
    while k < |userLogs|
      invariant 0 <= k <= |userLogs|
      invariant WalkState(userLogs, k, dailyMap, keys, currentSessionStart)
    {
      dailyMap, keys, currentSessionStart := WalkLog(userLogs, k, dailyMap, keys, currentSessionStart);
      k := k + 1;
    }
    ghost var closed := dailyMap;

    if currentSessionStart.Some? {
      var start := currentSessionStart.value;
      if DayOf(start.timestamp) == DayOf(now) {
        var diff := MinutesBetween(now, start.timestamp);
        var startDayKey := DayOf(start.timestamp);
        if startDayKey in dailyMap {
          dailyMap := dailyMap[startDayKey := dailyMap[startDayKey].(totalMinutes := dailyMap[startDayKey].totalMinutes + diff)];
        }
      }
    }
    OpenSessionCredit(userLogs, now, closed, dailyMap);
  }

  /**
   * One iteration of the walk (timeService.ts:62-99): the log goes into the
   * bucket of its own day; a CLOCK_IN becomes the open start, replacing any
   * earlier one; a CLOCK_OUT with an open start credits the minutes between
   * them to the start's day and closes the session; an orphan CLOCK_OUT
   * credits nothing.
   */
  method WalkLog(s: seq<TimeLog>, k: nat, m: map<int, DayBucket>, keys: seq<int>, start: Option<TimeLog>)
    returns (m': map<int, DayBucket>, keys': seq<int>, start': Option<TimeLog>)
    requires k < |s| && WalkState(s, k, m, keys, start)
    ensures WalkState(s, k + 1, m', keys', start')
  {
    var log := s[k];
    var dayKey := DayOf(log.timestamp);
    m', keys' := m, keys;
    if dayKey !in m' {
      m' := m'[dayKey := DayBucket(0, [])];
      keys' := keys' + [dayKey];
    }
    m' := m'[dayKey := m'[dayKey].(logs := m'[dayKey].logs + [log])];
    BucketLog(s, k, m, keys, start, m', keys');
    ghost var bucketed := m';

    start' := start;
    if log.kind == ClockIn {
      start' := Some(log);
    } else if start'.Some? {
      var startLog := start'.value;
      // The start log was bucketed one step earlier, so the source's
      // re-creation of a missing start day (timeService.ts:76-78) never fires.
      var startDayKey := DayOf(startLog.timestamp);
      assert startDayKey in m';
      var diff := MinutesBetween(log.timestamp, startLog.timestamp);
      m' := m'[startDayKey := m'[startDayKey].(totalMinutes := m'[startDayKey].totalMinutes + diff)];
      start' := None;
    }
    CreditLog(s, k, start, bucketed, m');
  }

  /**
   * The buckets once s[k] is listed: each holds the logs of s[..k + 1] on
   * its day and the minutes closed within s[..k].
   */
  ghost predicate Bucketed(s: seq<TimeLog>, k: nat, m: map<int, DayBucket>)
    requires k < |s|
  {
    && (forall d :: d in m ==> m[d] == DayBucket(ClosedMinutes(s, d, k), DayLogs(s, d, k + 1)))
    && (forall d :: d !in m ==> ClosedMinutes(s, d, k) == 0 && DayLogs(s, d, k + 1) == [])
  }

  /** Listing s[k] in the bucket of its day, creating the bucket when the day is new. */
  lemma BucketLog(s: seq<TimeLog>, k: nat, m: map<int, DayBucket>, keys: seq<int>, start: Option<TimeLog>,
                  m': map<int, DayBucket>, keys': seq<int>)
    requires k < |s| && WalkState(s, k, m, keys, start)
    requires var day := DayOf(s[k].timestamp);
      var m1 := if day in m then m else m[day := DayBucket(0, [])];
      && keys' == (if day in m then keys else keys + [day])
      && m' == m1[day := m1[day].(logs := m1[day].logs + [s[k]])]
    ensures keys' == Days(s, k + 1)
    ensures forall d :: d in m' <==> d in keys'
    ensures Bucketed(s, k, m')
  {
    forall d
      ensures d in m' ==> m'[d] == DayBucket(ClosedMinutes(s, d, k), DayLogs(s, d, k + 1))
      ensures d !in m' ==> ClosedMinutes(s, d, k) == 0 && DayLogs(s, d, k + 1) == []
    {
    }
  }

  /** Crediting a session that s[k] closes to the day its start is on. */
  lemma CreditLog(s: seq<TimeLog>, k: nat, start: Option<TimeLog>, m: map<int, DayBucket>, m': map<int, DayBucket>)
    requires k < |s| && Bucketed(s, k, m)
    requires start == if k > 0 && s[k - 1].kind == ClockIn then Some(s[k - 1]) else None
    requires s[k].kind == ClockIn || start.None? ==> m' == m
    requires s[k].kind == ClockOut && start.Some? ==>
      var day := DayOf(start.value.timestamp);
      day in m && m' == m[day := m[day].(totalMinutes := m[day].totalMinutes + MinutesBetween(s[k].timestamp, start.value.timestamp))]
    ensures forall d :: d in m' <==> d in m
    ensures forall d :: d in m' ==> m'[d] == DayBucket(ClosedMinutes(s, d, k + 1), DayLogs(s, d, k + 1))
    ensures forall d :: d !in m' ==> ClosedMinutes(s, d, k + 1) == 0 && DayLogs(s, d, k + 1) == []
  {
  }

  // ---------------------------------------------------------------------
  // The days a timeline covers and the logs of each day.

  /** Days(s, n) lists every day s[..n] has a log on, once, and no other day. */
  lemma {:induction false} DaysSpec(s: seq<TimeLog>, n: nat)
    requires n <= |s|
    ensures forall d :: d in Days(s, n) <==> exists i :: 0 <= i < n && DayOf(s[i].timestamp) == d
    ensures forall i, j :: 0 <= i < j < |Days(s, n)| ==> Days(s, n)[i] != Days(s, n)[j]
  {
    if n > 0 {
      DaysSpec(s, n - 1);
    }
  }

  /** On a timeline in time order the days come out oldest first. */
  lemma {:induction false} DaysAscending(s: seq<TimeLog>, n: nat)
    requires n <= |s| && SortedByTime(s)
    ensures forall i, j :: 0 <= i < j < |Days(s, n)| ==> Days(s, n)[i] < Days(s, n)[j]
    ensures n > 0 ==> forall d :: d in Days(s, n) ==> d <= DayOf(s[n - 1].timestamp)
  {
    if n > 0 {
      DaysAscending(s, n - 1);
      var prev, d := Days(s, n - 1), DayOf(s[n - 1].timestamp);
      if n > 1 {
        DayOfMonotonic(s[n - 2].timestamp, s[n - 1].timestamp);
      }
      assert forall e :: e in prev ==> e <= d;
      if d !in prev {
        assert Days(s, n) == prev + [d];
        forall i | 0 <= i < |prev| ensures prev[i] < d {
          assert prev[i] in prev;
        }
      }
    }
  }

  /**
   * DayLogs(s, d, n) holds exactly the logs of s[..n] that fall on day `d`,
   * each as often as it occurs there.
   */
  lemma {:induction false} DayLogsSpec(s: seq<TimeLog>, d: int, n: nat)
    requires n <= |s|
    ensures forall i :: 0 <= i < |DayLogs(s, d, n)| ==> DayOf(DayLogs(s, d, n)[i].timestamp) == d
    ensures forall l :: multiset(DayLogs(s, d, n))[l] == if DayOf(l.timestamp) == d then multiset(s[..n])[l] else 0
  {
    if n > 0 {
      DayLogsSpec(s, d, n - 1);
      assert s[..n] == s[..n - 1] + [s[n - 1]];
    }
  }

  /** A day's logs keep the timeline's order, so sorting them again changes nothing. */
  lemma {:induction false} DayLogsSorted(s: seq<TimeLog>, d: int, n: nat)
    requires n <= |s| && SortedByTime(s)
    ensures SortedByTime(DayLogs(s, d, n))
    ensures n > 0 ==> forall i :: 0 <= i < |DayLogs(s, d, n)| ==> DayLogs(s, d, n)[i].timestamp <= s[n - 1].timestamp
  {
    if n > 0 {
      DayLogsSorted(s, d, n - 1);
      if n > 1 {
        assert s[n - 2].timestamp <= s[n - 1].timestamp;
      }
    }
  }

  // ---------------------------------------------------------------------
  // The final ordering.

  /** An entry older than all others goes to the end. */
  lemma {:induction false} InsertOldest(x: DailyStat, r: seq<DailyStat>)
    requires forall i :: 0 <= i < |r| ==> r[i].date > x.date
    ensures InsertByDateDesc(x, r) == r + [x]
  {
    if r != [] {
      InsertOldest(x, r[1..]);
      assert r == [r[0]] + r[1..];
    }
  }

  /** Dates never increase along the sequence. */
  predicate DatesDescending(r: seq<DailyStat>) {
    forall i, j :: 0 <= i < j < |r| ==> r[i].date >= r[j].date
  }

  /** Inserting adds exactly `x` to the entries. */
  lemma {:induction false} InsertByDateDescCount(x: DailyStat, r: seq<DailyStat>)
    ensures multiset(InsertByDateDesc(x, r)) == multiset(r) + multiset{x}
  {
    if r != [] && x.date < r[0].date {
      InsertByDateDescCount(x, r[1..]);
      assert r == [r[0]] + r[1..];
    }
  }

  /** Inserting into entries newest first keeps them newest first. */
  lemma {:induction false} InsertByDateDescSorted(x: DailyStat, r: seq<DailyStat>)
    requires DatesDescending(r)
    ensures DatesDescending(InsertByDateDesc(x, r))
  {
    if r == [] || x.date >= r[0].date {
      PrependNewest(x, r);
    } else {
      var t := r[1..];
      InsertByDateDescSorted(x, t);
      InsertByDateDescCount(x, t);
      HeadIsNewest(x, r);
      DatesBounded(InsertByDateDesc(x, t), multiset(t) + multiset{x}, r[0].date);
      PrependNewest(r[0], InsertByDateDesc(x, t));
    }
  }

  /** An entry no older than any of a descending sequence can go in front. */
  lemma PrependNewest(x: DailyStat, r: seq<DailyStat>)
    requires DatesDescending(r)
    requires r == [] || x.date >= r[0].date || forall k :: 0 <= k < |r| ==> r[k].date <= x.date
    ensures DatesDescending([x] + r)
  {
    var q := [x] + r;
    forall i, j | 0 <= i < j < |q| ensures q[i].date >= q[j].date {
      assert q[j] == r[j - 1];
    }
  }

  /** The head of descending entries is no older than the rest and than an older `x`. */
  lemma HeadIsNewest(x: DailyStat, r: seq<DailyStat>)
    requires DatesDescending(r) && r != [] && x.date < r[0].date
    ensures DatesDescending(r[1..])
    ensures forall e :: e in multiset(r[1..]) + multiset{x} ==> e.date <= r[0].date
  {
    forall e | e in multiset(r[1..]) + multiset{x} ensures e.date <= r[0].date {
      if e != x {
        assert e in r[1..];
      }
    }
  }

  /** Every entry drawn from a bag of entries dated no later than `d` is dated no later than `d`. */
  lemma DatesBounded(q: seq<DailyStat>, bag: multiset<DailyStat>, d: int)
    requires multiset(q) == bag
    requires forall e :: e in bag ==> e.date <= d
    ensures forall k :: 0 <= k < |q| ==> q[k].date <= d
  {
    forall k | 0 <= k < |q| ensures q[k].date <= d {
      assert q[k] in multiset(q);
    }
  }

  /** The newest-first sort orders any entries by date. */
  lemma {:induction false} SortByDateDescSorted(s: seq<DailyStat>)
    ensures DatesDescending(SortByDateDesc(s))
  {
    if s != [] {
      SortByDateDescSorted(s[1..]);
      InsertByDateDescSorted(s[0], SortByDateDesc(s[1..]));
    }
  }

  /** The newest-first sort keeps every entry, as often as it occurs. */
  lemma {:induction false} SortByDateDescCount(s: seq<DailyStat>)
    ensures multiset(SortByDateDesc(s)) == multiset(s)
  {
    if s != [] {
      SortByDateDescCount(s[1..]);
      InsertByDateDescCount(s[0], SortByDateDesc(s[1..]));
      assert s == [s[0]] + s[1..];
    }
  }

  /**
   * Entries whose dates increase strictly come out of the newest-first sort
   * reversed.
   */
  lemma {:induction false} SortByDateDescOfAscending(s: seq<DailyStat>)
    requires forall i, j :: 0 <= i < j < |s| ==> s[i].date < s[j].date
    ensures var r := SortByDateDesc(s);
      && |r| == |s| && (forall i :: 0 <= i < |r| ==> r[i] == s[|s| - 1 - i])
      && (forall i, j :: 0 <= i < j < |r| ==> r[i].date > r[j].date)
  {
    if s != [] {
      var t := s[1..];
      SortByDateDescOfAscending(t);
      var q := SortByDateDesc(t);
      assert forall i :: 0 <= i < |q| ==> q[i] == s[|s| - 1 - i];
      InsertOldest(s[0], q);
    }
  }

  // ---------------------------------------------------------------------
  // Properties of calculateDailyStats.

  /**
   * One entry per day the user has logs on, newest day first, the entry of
   * each day being that day's bucket.
   */
  lemma DailyStatsShape(userId: string, logs: seq<TimeLog>, now: int)
    ensures var r := DailyStatsOf(userId, logs, now);
      && EntriesOf(UserTimeline(userId, logs), now, r)
      && (forall i, j :: 0 <= i < j < |r| ==> r[i].date > r[j].date)
  {
    var s := UserTimeline(userId, logs);
    var u := DayEntries(s, now);
    DayEntriesAscending(s, now);
    SortByDateDescOfAscending(u);
    EntriesOfReversed(s, now, u, SortByDateDesc(u));
  }

  /** The day entries listed in reverse are the entries newest day first. */
  lemma EntriesOfReversed(s: seq<TimeLog>, now: int, u: seq<DailyStat>, r: seq<DailyStat>)
    requires |u| == |Days(s, |s|)|
    requires forall i :: 0 <= i < |u| ==> u[i] == DayStat(s, Days(s, |s|)[i], now)
    requires |r| == |u| && forall i :: 0 <= i < |r| ==> r[i] == u[|u| - 1 - i]
    ensures EntriesOf(s, now, r)
  {
  }

  /** On a timeline in time order the entries come out oldest day first. */
  lemma DayEntriesAscending(s: seq<TimeLog>, now: int)
    requires SortedByTime(s)
    ensures var u := DayEntries(s, now);
      forall i, j :: 0 <= i < j < |u| ==> u[i].date < u[j].date
  {
    DaysAscending(s, |s|);
  }

  /** A day's entry lists that day's logs in timeline order. */
  lemma DayStatLogs(s: seq<TimeLog>, d: int, now: int)
    requires SortedByTime(s)
    ensures var e := DayStat(s, d, now);
      && e.date == d
      && e.logs == DayLogs(s, d, |s|)
      && SortedByTime(e.logs)
  {
    DayLogsSorted(s, d, |s|);
    SortOfSorted(DayLogs(s, d, |s|));
  }

  /**
   * The entries listed newest day first, one per day of the timeline `s`:
   * what DailyStatsShape proves of the result.
   */
  ghost predicate EntriesOf(s: seq<TimeLog>, now: int, r: seq<DailyStat>) {
    var days := Days(s, |s|);
    |r| == |days| && forall i :: 0 <= i < |r| ==> r[i] == DayStat(s, days[|days| - 1 - i], now)
  }

  /** A day's entry holds only the user's logs of that day, in time order. */
  lemma EntryOnDay(s: seq<TimeLog>, now: int, d: int, userId: string)
    requires SortedByTime(s)
    requires forall i :: 0 <= i < |s| ==> s[i].userId == userId
    ensures var e := DayStat(s, d, now);
      && SortedByTime(e.logs)
      && forall j :: 0 <= j < |e.logs| ==> e.logs[j].userId == userId && DayOf(e.logs[j].timestamp) == e.date
  {
    DayStatLogs(s, d, now);
    DayLogsSpec(s, d, |s|);
    var e := DayStat(s, d, now);
    assert s[..|s|] == s;
    forall j | 0 <= j < |e.logs| ensures e.logs[j].userId == userId {
      assert multiset(s)[e.logs[j]] > 0;
    }
  }

  lemma EntriesOnDay(s: seq<TimeLog>, now: int, r: seq<DailyStat>, userId: string)
    requires SortedByTime(s) && EntriesOf(s, now, r)
    requires forall i :: 0 <= i < |s| ==> s[i].userId == userId
    ensures forall i :: 0 <= i < |r| ==> SortedByTime(r[i].logs)
    ensures forall i, j :: 0 <= i < |r| && 0 <= j < |r[i].logs| ==>
      r[i].logs[j].userId == userId && DayOf(r[i].logs[j].timestamp) == r[i].date
  {
    var days := Days(s, |s|);
    forall i | 0 <= i < |r|
      ensures SortedByTime(r[i].logs)
      ensures forall j :: 0 <= j < |r[i].logs| ==> r[i].logs[j].userId == userId && DayOf(r[i].logs[j].timestamp) == r[i].date
    {
      EntryOnDay(s, now, days[|days| - 1 - i], userId);
    }
  }

  /** The entries of the result are each about the user's logs on their own day. */
  lemma DailyStatsLogsOnDay(userId: string, logs: seq<TimeLog>, now: int)
    ensures var r := DailyStatsOf(userId, logs, now);
      && (forall i :: 0 <= i < |r| ==> SortedByTime(r[i].logs))
      && (forall i, j :: 0 <= i < |r| && 0 <= j < |r[i].logs| ==>
            r[i].logs[j].userId == userId && DayOf(r[i].logs[j].timestamp) == r[i].date)
  {
    DailyStatsShape(userId, logs, now);
    UserTimelineOwner(userId, logs);
    EntriesOnDay(UserTimeline(userId, logs), now, DailyStatsOf(userId, logs, now), userId);
  }

  /** A log of the timeline is in its day's entry, as often as on the timeline. */
  lemma EntryCovers(s: seq<TimeLog>, now: int, l: TimeLog)
    requires SortedByTime(s) && l in s
    ensures DayOf(l.timestamp) in Days(s, |s|)
    ensures multiset(DayStat(s, DayOf(l.timestamp), now).logs)[l] == multiset(s)[l]
  {
    var d := DayOf(l.timestamp);
    var k :| 0 <= k < |s| && s[k] == l;
    DaysSpec(s, |s|);
    DayStatLogs(s, d, now);
    DayLogsSpec(s, d, |s|);
    assert s[..|s|] == s;
  }

  /** Every log of the user appears in the entry of its own day, as often as it was logged. */
  lemma DailyStatsCoversLogs(userId: string, logs: seq<TimeLog>, now: int, l: TimeLog)
    requires l in logs && l.userId == userId
    ensures var r := DailyStatsOf(userId, logs, now);
      exists i :: 0 <= i < |r| && r[i].date == DayOf(l.timestamp) && multiset(r[i].logs)[l] == multiset(logs)[l]
  {
    var s := UserTimeline(userId, logs);
    var days := Days(s, |s|);
    var r := DailyStatsOf(userId, logs, now);
    UserTimelineCount(userId, logs);
    assert multiset(s)[l] == multiset(logs)[l] > 0;
    EntryCovers(s, now, l);
    var m :| 0 <= m < |days| && days[m] == DayOf(l.timestamp);
    DailyStatsShape(userId, logs, now);
    DayStatLogs(s, days[m], now);
    assert r[|days| - 1 - m] == DayStat(s, days[m], now);
  }

  // ---------------------------------------------------------------------
  // Hours are never negative when no log lies in the future.

  /** Sessions on a timeline in time order never last a negative time. */
  lemma {:induction false} ClosedMinutesNonNegative(s: seq<TimeLog>, d: int, n: nat)
    requires n <= |s| && SortedByTime(s)
    ensures ClosedMinutes(s, d, n) >= 0
  {
    if n >= 2 {
      ClosedMinutesNonNegative(s, d, n - 1);
      assert s[n - 2].timestamp <= s[n - 1].timestamp;
    }
  }

  /** A day's hours are not negative when the timeline ends no later than `now`. */
  lemma DayStatNonNegative(s: seq<TimeLog>, d: int, now: int)
    requires SortedByTime(s) && (|s| > 0 ==> s[|s| - 1].timestamp <= now)
    ensures var e := DayStat(s, d, now); 0.0 <= e.overtimeHours <= e.totalHours
  {
    ClosedMinutesNonNegative(s, d, |s|);
  }

  lemma EntriesNonNegative(s: seq<TimeLog>, now: int, r: seq<DailyStat>)
    requires SortedByTime(s) && EntriesOf(s, now, r)
    requires |s| > 0 ==> s[|s| - 1].timestamp <= now
    ensures forall i :: 0 <= i < |r| ==> 0.0 <= r[i].overtimeHours <= r[i].totalHours
  {
    var days := Days(s, |s|);
    forall i | 0 <= i < |r| ensures 0.0 <= r[i].overtimeHours <= r[i].totalHours {
      DayStatNonNegative(s, days[|days| - 1 - i], now);
    }
  }

  /**
   * When none of the user's logs is later than `now`, every day has
   * non-negative hours and overtime no larger than its hours.
   */
  lemma DailyHoursNonNegative(userId: string, logs: seq<TimeLog>, now: int)
    requires forall l :: l in logs && l.userId == userId ==> l.timestamp <= now
    ensures var r := DailyStatsOf(userId, logs, now);
      forall i :: 0 <= i < |r| ==> 0.0 <= r[i].overtimeHours <= r[i].totalHours
  {
    var s := UserTimeline(userId, logs);
    DailyStatsShape(userId, logs, now);
    if |s| > 0 {
      UserTimelineCount(userId, logs);
      assert multiset(s)[s[|s| - 1]] > 0;
    }
    EntriesNonNegative(s, now, DailyStatsOf(userId, logs, now));
  }

  // ---------------------------------------------------------------------
  // Sessions, one log at a time.

  /** Whole minutes: a gap of exactly k minutes counts as k. */
  lemma MinutesBetweenWhole(later: int, earlier: int, k: int)
    requires later - earlier == k * MsPerMinute
    ensures MinutesBetween(later, earlier) == k
  {
  }

  lemma {:induction false} ClosedMinutesPrefix(s: seq<TimeLog>, t: seq<TimeLog>, d: int, n: nat)
    requires n <= |s| && n <= |t| && s[..n] == t[..n]
    ensures ClosedMinutes(s, d, n) == ClosedMinutes(t, d, n)
  {
    if n >= 2 {
      assert s[n - 2] == s[..n][n - 2] == t[..n][n - 2] == t[n - 2];
      assert s[n - 1] == s[..n][n - 1] == t[..n][n - 1] == t[n - 1];
      assert s[..n - 1] == s[..n][..n - 1];
      assert t[..n - 1] == t[..n][..n - 1];
      ClosedMinutesPrefix(s, t, d, n - 1);
    }
  }

  lemma {:induction false} DayLogsPrefix(s: seq<TimeLog>, t: seq<TimeLog>, d: int, n: nat)
    requires n <= |s| && n <= |t| && s[..n] == t[..n]
    ensures DayLogs(s, d, n) == DayLogs(t, d, n)
  {
    if n >= 1 {
      assert s[n - 1] == s[..n][n - 1] == t[..n][n - 1] == t[n - 1];
      assert s[..n - 1] == s[..n][..n - 1];
      assert t[..n - 1] == t[..n][..n - 1];
      DayLogsPrefix(s, t, d, n - 1);
    }
  }

  /**
   * A log at the end of the timeline credits a session only when it is a
   * CLOCK_OUT right after a CLOCK_IN, and then only to the day of that
   * CLOCK_IN, whatever day the CLOCK_OUT falls on; it is listed among the
   * logs of its own day either way.
   */
  lemma ClosingLog(s: seq<TimeLog>, x: TimeLog, d: int)
    ensures var t := s + [x];
      && ClosedMinutes(t, d, |t|) == ClosedMinutes(s, d, |s|) +
           (if |s| > 0 && s[|s| - 1].kind == ClockIn && x.kind == ClockOut && DayOf(s[|s| - 1].timestamp) == d
            then MinutesBetween(x.timestamp, s[|s| - 1].timestamp) else 0)
      && DayLogs(t, d, |t|) == DayLogs(s, d, |s|) + (if DayOf(x.timestamp) == d then [x] else [])
  {
    var t := s + [x];
    assert t[..|s|] == s[..|s|];
    ClosedMinutesPrefix(s, t, d, |s|);
    DayLogsPrefix(s, t, d, |s|);
  }

  /**
   * A CLOCK_OUT with no open session (the timeline is empty or ends in a
   * CLOCK_OUT) credits no day, yet is listed on its own day.
   */
  lemma OrphanClockOut(s: seq<TimeLog>, x: TimeLog)
    requires x.kind == ClockOut && (|s| == 0 || s[|s| - 1].kind == ClockOut)
    ensures var t := s + [x];
      forall d :: ClosedMinutes(t, d, |t|) == ClosedMinutes(s, d, |s|)
        && DayLogs(t, d, |t|) == DayLogs(s, d, |s|) + (if DayOf(x.timestamp) == d then [x] else [])
  {
    forall d {
      ClosingLog(s, x, d);
    }
  }

  /**
   * A second CLOCK_IN replaces the open start: after CLOCK_IN a, CLOCK_IN b,
   * CLOCK_OUT c only the minutes from b to c are credited, to b's day.
   */
  lemma SupersededClockIn(s: seq<TimeLog>, a: TimeLog, b: TimeLog, c: TimeLog, d: int)
    requires a.kind == ClockIn && b.kind == ClockIn && c.kind == ClockOut
    ensures var t := s + [a, b, c];
      ClosedMinutes(t, d, |t|) == ClosedMinutes(s + [a], d, |s| + 1) +
        (if DayOf(b.timestamp) == d then MinutesBetween(c.timestamp, b.timestamp) else 0)
  {
    ClosingLog(s + [a], b, d);
    assert s + [a] + [b] == s + [a, b];
    ClosingLog(s + [a, b], c, d);
    assert s + [a, b] + [c] == s + [a, b, c];
  }

  /**
   * The session from 23:50 on day `day` to 00:10 the next day gives its 20
   * minutes to `day` and none to the next day.
   */
  lemma MidnightSession(s: seq<TimeLog>, day: int, cin: TimeLog, cout: TimeLog)
    requires cin.kind == ClockIn && cin.timestamp == day * MsPerDay + 23 * MsPerHour + 50 * MsPerMinute
    requires cout.kind == ClockOut && cout.timestamp == (day + 1) * MsPerDay + 10 * MsPerMinute
    ensures var t := s + [cin, cout];
      && ClosedMinutes(t, day, |t|) == ClosedMinutes(s + [cin], day, |s| + 1) + 20
      && ClosedMinutes(t, day + 1, |t|) == ClosedMinutes(s + [cin], day + 1, |s| + 1)
  {
    DayOfOffset(day, 23 * MsPerHour + 50 * MsPerMinute);
    MinutesBetweenWhole(cout.timestamp, cin.timestamp, 20);
    assert s + [cin] + [cout] == s + [cin, cout];
    ClosingLog(s + [cin], cout, day);
    ClosingLog(s + [cin], cout, day + 1);
  }

  /**
   * The result depends on the clock only through a session still open on
   * the clock's day: readings at which no session is running today give
   * the same result.
   */
  lemma ClockMattersOnlyWhenRunning(userId: string, logs: seq<TimeLog>, now1: int, now2: int)
    requires !RunningToday(UserTimeline(userId, logs), now1) && !RunningToday(UserTimeline(userId, logs), now2)
    ensures DailyStatsOf(userId, logs, now1) == DailyStatsOf(userId, logs, now2)
  {
    var s := UserTimeline(userId, logs);
    var u1, u2 := DayEntries(s, now1), DayEntries(s, now2);
    assert |u1| == |u2|;
    forall i | 0 <= i < |u1| ensures u1[i] == u2[i] {
    }
    assert u1 == u2;
  }

  /**
   * A CLOCK_IN at the end of the timeline, 90 minutes before `now` on the
   * same day, adds an hour and a half to that day.
   */
  lemma RunningSession(s: seq<TimeLog>, now: int)
    requires |s| > 0 && s[|s| - 1].kind == ClockIn
    requires now == s[|s| - 1].timestamp + 90 * MsPerMinute && DayOf(now) == DayOf(s[|s| - 1].timestamp)
    ensures DayMinutes(s, DayOf(now), now) == ClosedMinutes(s, DayOf(now), |s|) + 90
    ensures (DayStat(s, DayOf(now), now).totalHours - ClosedMinutes(s, DayOf(now), |s|) as real / 60.0) == 1.5
  {
    MinutesBetweenWhole(now, s[|s| - 1].timestamp, 90);
  }
}
