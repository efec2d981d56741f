/**
 * The per-user timeline both core files build the same way: keep one user's
 * logs (Array.prototype.filter) and sort them by timestamp only with the
 * engine's stable sort (Array.prototype.sort with a timestamp comparator).
 * Also the "latest log" rule that decides whether a user is working.
 */
module Timeline {
  import opened Types

  /** One user's logs, in the order they were logged. */
  function FilterUser(logs: seq<TimeLog>, userId: string): (r: seq<TimeLog>)
    ensures |r| <= |logs|
    ensures forall i :: 0 <= i < |r| ==> r[i].userId == userId
  {
    if logs == [] then []
    else
      var init, last := logs[..|logs| - 1], logs[|logs| - 1];
      if last.userId == userId then FilterUser(init, userId) + [last] else FilterUser(init, userId)
  }

  /** The filter keeps every log of the user, as often as it occurs, and no other. */
  lemma {:induction false} FilterUserCount(logs: seq<TimeLog>, userId: string)
    ensures forall l :: multiset(FilterUser(logs, userId))[l] == if l.userId == userId then multiset(logs)[l] else 0
  {
    if logs != [] {
      var init, last := logs[..|logs| - 1], logs[|logs| - 1];
      assert logs == init + [last];
      FilterUserCount(init, userId);
    }
  }

  /**
   * Where the filter's output comes from: the positions in `logs` of the
   * user's logs, in increasing order, so the filter keeps the logged order.
   */
  function FilterPositions(logs: seq<TimeLog>, userId: string): (idx: seq<nat>)
    ensures |idx| == |FilterUser(logs, userId)|
    ensures forall i :: 0 <= i < |idx| ==> idx[i] < |logs| && FilterUser(logs, userId)[i] == logs[idx[i]]
    ensures forall i, j :: 0 <= i < j < |idx| ==> idx[i] < idx[j]
    ensures forall p :: 0 <= p < |logs| && logs[p].userId == userId ==> p in idx
  {
    if logs == [] then []
    else
      var init := logs[..|logs| - 1];
      var rest := FilterPositions(init, userId);
      assert forall p :: 0 <= p < |init| ==> init[p] == logs[p];
      if logs[|logs| - 1].userId == userId then rest + [|logs| - 1] else rest
  }

  predicate SortedByTime(s: seq<TimeLog>) {
    forall i, j :: 0 <= i < j < |s| ==> s[i].timestamp <= s[j].timestamp
  }

  lemma SortedCons(a: TimeLog, q: seq<TimeLog>)
    requires SortedByTime(q)
    requires q != [] ==> a.timestamp <= q[0].timestamp
    ensures SortedByTime([a] + q)
  {
    var s := [a] + q;
    forall i, j | 0 <= i < j < |s| ensures s[i].timestamp <= s[j].timestamp {
      if i == 0 && j > 1 {
        assert q[0].timestamp <= q[j - 1].timestamp;
      }
    }
  }

  lemma SortedTail(s: seq<TimeLog>)
    requires SortedByTime(s) && s != []
    ensures SortedByTime(s[1..])
    ensures |s| > 1 ==> s[0].timestamp <= s[1].timestamp
  {
    var t := s[1..];
    forall i, j | 0 <= i < j < |t| ensures t[i].timestamp <= t[j].timestamp {
      assert t[i] == s[i + 1] && t[j] == s[j + 1];
    }
  }

  /** Puts `x` in front of every log of `r` that is not earlier than it. */
  function InsertByTime(x: TimeLog, r: seq<TimeLog>): (q: seq<TimeLog>)
    requires SortedByTime(r)
    ensures |q| == |r| + 1
    ensures q[0] == x || (r != [] && q[0] == r[0])
    ensures multiset(q) == multiset(r) + multiset{x}
    ensures SortedByTime(q)
  {
    if r == [] || x.timestamp <= r[0].timestamp then
      SortedCons(x, r);
      [x] + r
    else
      SortedTail(r);
      var q' := InsertByTime(x, r[1..]);
      SortedCons(r[0], q');
      assert r == [r[0]] + r[1..];
      [r[0]] + q'
  }

  /**
   * The stable sort by timestamp: logs with equal timestamps keep their
   * relative order (SortByTimeIsStable).
   */
  function SortByTime(s: seq<TimeLog>): (r: seq<TimeLog>)
    ensures |r| == |s|
    ensures multiset(r) == multiset(s)
    ensures SortedByTime(r)
  {
    if s == [] then []
    else
      assert s == [s[0]] + s[1..];
      InsertByTime(s[0], SortByTime(s[1..]))
  }

  /** One user's logs in processing order: filtered, then sorted by timestamp. */
  function UserTimeline(userId: string, logs: seq<TimeLog>): (s: seq<TimeLog>)
    ensures SortedByTime(s)
  {
    SortByTime(FilterUser(logs, userId))
  }

  /** The timeline holds every log of the user, as often as it was logged, and nothing else. */
  lemma UserTimelineCount(userId: string, logs: seq<TimeLog>)
    ensures forall l :: multiset(UserTimeline(userId, logs))[l] == if l.userId == userId then multiset(logs)[l] else 0
  {
    FilterUserCount(logs, userId);
  }

  /** Every log on the timeline is the user's. */
  lemma UserTimelineOwner(userId: string, logs: seq<TimeLog>)
    ensures var s := UserTimeline(userId, logs);
      forall i :: 0 <= i < |s| ==> s[i].userId == userId
  {
    var s := UserTimeline(userId, logs);
    forall i | 0 <= i < |s| ensures s[i].userId == userId {
      assert s[i] in multiset(FilterUser(logs, userId));
    }
  }

  /** The user's last log in processing order, the one their status comes from. */
  function LastLog(userId: string, logs: seq<TimeLog>): Option<TimeLog> {
    var s := UserTimeline(userId, logs);
    if |s| == 0 then None else Some(s[|s| - 1])
  }

  /** A user is working exactly when their last log is a CLOCK_IN. */
  predicate IsWorking(userId: string, logs: seq<TimeLog>) {
    var last := LastLog(userId, logs);
    last.Some? && last.value.kind == ClockIn
  }

  // ---------------------------------------------------------------------
  // Which log is the latest: the largest timestamp, and among logs sharing
  // it, the one logged last.

  ghost predicate IsLatestAt(s: seq<TimeLog>, k: int) {
    && 0 <= k < |s|
    && (forall j :: 0 <= j < |s| ==> s[j].timestamp <= s[k].timestamp)
    && (forall j :: k < j < |s| ==> s[j].timestamp < s[k].timestamp)
  }

  function LatestIndex(s: seq<TimeLog>): (k: nat)
    requires |s| > 0
    ensures k < |s|
    ensures forall j :: 0 <= j < |s| ==> s[j].timestamp <= s[k].timestamp
    ensures forall j :: k < j < |s| ==> s[j].timestamp < s[k].timestamp
  {
    if |s| == 1 then 0
    else
      var k := 1 + LatestIndex(s[1..]);
      assert forall j :: 0 < j < |s| ==> s[j] == s[1..][j - 1];
      if s[0].timestamp > s[k].timestamp then 0 else k
  }

  lemma LatestUnique(s: seq<TimeLog>, i: int, k: int)
    requires IsLatestAt(s, i) && IsLatestAt(s, k)
    ensures i == k
  {
    var _, _ := s[i], s[k];
  }

  lemma {:induction false} LastOfInsert(x: TimeLog, q: seq<TimeLog>)
    requires SortedByTime(q) && |q| > 0
    ensures var r := InsertByTime(x, q);
      r[|r| - 1] == if x.timestamp > q[|q| - 1].timestamp then x else q[|q| - 1]
  {
    if x.timestamp <= q[0].timestamp {
    } else if |q| > 1 {
      LastOfInsert(x, q[1..]);
    }
  }

  /**
   * The last log of the stable sort is the latest log: no log is later, and
   * every log added after it is strictly earlier.
   */
  lemma {:induction false} LastOfSortIsLatest(s: seq<TimeLog>)
    requires |s| > 0
    ensures var r := SortByTime(s); r[|r| - 1] == s[LatestIndex(s)]
  {
    if |s| > 1 {
      LastOfSortIsLatest(s[1..]);
      LastOfInsert(s[0], SortByTime(s[1..]));
    }
  }

  /**
   * The status rule in terms of the raw log: a user with no logs has no last
   * log; otherwise the last log is the user's latest (LatestIndex) among
   * their logs in the order they were logged.
   */
  lemma LastLogIsLatest(userId: string, logs: seq<TimeLog>)
    ensures var f := FilterUser(logs, userId);
      LastLog(userId, logs) == if |f| == 0 then None else Some(f[LatestIndex(f)])
  {
    var f := FilterUser(logs, userId);
    if |f| > 0 {
      LastOfSortIsLatest(f);
    }
  }

  // ---------------------------------------------------------------------
  // The sort on inputs that are already ordered.

  /** Sorting a timeline that is already in order changes nothing. */
  lemma {:induction false} SortOfSorted(s: seq<TimeLog>)
    requires SortedByTime(s)
    ensures SortByTime(s) == s
  {
    if s != [] {
      SortOfSorted(s[1..]);
      assert s == [s[0]] + s[1..];
    }
  }

  lemma SortedPrefix(r: seq<TimeLog>, x: TimeLog)
    requires SortedByTime(r + [x])
    ensures SortedByTime(r)
    ensures forall i :: 0 <= i < |r| ==> r[i].timestamp <= x.timestamp
  {
    forall i, j | 0 <= i < j < |r| ensures r[i].timestamp <= r[j].timestamp {
      assert r[i] == (r + [x])[i] && r[j] == (r + [x])[j];
    }
    forall i | 0 <= i < |r| ensures r[i].timestamp <= x.timestamp {
      assert r[i] == (r + [x])[i] && x == (r + [x])[|r|];
    }
  }

  lemma {:induction false} InsertAppend(y: TimeLog, r: seq<TimeLog>, x: TimeLog)
    requires SortedByTime(r + [x]) && y.timestamp <= x.timestamp
    ensures SortedByTime(r)
    ensures InsertByTime(y, r + [x]) == InsertByTime(y, r) + [x]
  {
    SortedPrefix(r, x);
    if r == [] {
      assert r + [x] == [x];
    } else if y.timestamp <= r[0].timestamp {
      InsertAppendFront(y, r, x);
    } else {
      var h, t := r[0], r[1..];
      SplitHead(r, x);
      SortedTail(r + [x]);
      InsertAppend(y, t, x);
      InsertAppendSkip(y, h, t, x);
    }
  }

  /** InsertAppend when the new log goes in front. */
  lemma InsertAppendFront(y: TimeLog, r: seq<TimeLog>, x: TimeLog)
    requires SortedByTime(r + [x]) && SortedByTime(r) && r != [] && y.timestamp <= r[0].timestamp
    ensures InsertByTime(y, r + [x]) == InsertByTime(y, r) + [x]
  {
    assert (r + [x])[0] == r[0];
    ConsAppend(y, r, x);
  }

  /** InsertAppend when the new log goes past the head `h`, given the result for the tail `t`. */
  lemma InsertAppendSkip(y: TimeLog, h: TimeLog, t: seq<TimeLog>, x: TimeLog)
    requires SortedByTime(t) && SortedByTime([h] + t) && SortedByTime([h] + (t + [x])) && SortedByTime(t + [x])
    requires y.timestamp > h.timestamp
    requires InsertByTime(y, t + [x]) == InsertByTime(y, t) + [x]
    ensures InsertByTime(y, [h] + (t + [x])) == InsertByTime(y, [h] + t) + [x]
  {
    InsertPastHead(y, h, t);
    InsertPastHead(y, h, t + [x]);
    ConsAppend(h, InsertByTime(y, t), x);
  }

  lemma SplitHead(r: seq<TimeLog>, x: TimeLog)
    requires r != []
    ensures r == [r[0]] + r[1..]
    ensures r + [x] == [r[0]] + (r[1..] + [x])
    ensures (r + [x])[0] == r[0] && (r + [x])[1..] == r[1..] + [x]
  {
  }

  lemma ConsAppend(h: TimeLog, a: seq<TimeLog>, x: TimeLog)
    ensures [h] + (a + [x]) == ([h] + a) + [x]
  {
  }

  /** Inserting a log later than the head `h` keeps the head in front. */
  lemma InsertPastHead(y: TimeLog, h: TimeLog, t: seq<TimeLog>)
    requires SortedByTime([h] + t) && y.timestamp > h.timestamp
    ensures SortedByTime(t)
    ensures InsertByTime(y, [h] + t) == [h] + InsertByTime(y, t)
  {
    var r := [h] + t;
    assert r[0] == h && r[1..] == t;
    SortedTail(r);
  }

  /** A log no earlier than any other lands at the end of the sort. */
  lemma {:induction false} SortAppendLatest(s: seq<TimeLog>, x: TimeLog)
    requires forall i :: 0 <= i < |s| ==> s[i].timestamp <= x.timestamp
    ensures SortByTime(s + [x]) == SortByTime(s) + [x]
  {
    if s != [] {
      assert (s + [x])[0] == s[0];
      assert (s + [x])[1..] == s[1..] + [x];
      SortAppendLatest(s[1..], x);
      var q := SortByTime(s[1..]);
      assert SortedByTime(q + [x]) by {
        forall i | 0 <= i < |q| ensures q[i].timestamp <= x.timestamp {
          assert q[i] in multiset(s[1..]);
        }
      }
      InsertAppend(s[0], q, x);
    }
  }

  // ---------------------------------------------------------------------
  // Stability.

  /** The logs of `s` stamped exactly `t`, in their order in `s`. */
  function AtTime(s: seq<TimeLog>, t: int): seq<TimeLog> {
    if s == [] then [] else (if s[0].timestamp == t then [s[0]] else []) + AtTime(s[1..], t)
  }

  lemma AtTimeCons(a: TimeLog, s: seq<TimeLog>, t: int)
    ensures AtTime([a] + s, t) == (if a.timestamp == t then [a] else []) + AtTime(s, t)
  {
    assert ([a] + s)[1..] == s;
  }

  lemma {:induction false} InsertByTimeAtTime(x: TimeLog, r: seq<TimeLog>, t: int)
    requires SortedByTime(r)
    ensures AtTime(InsertByTime(x, r), t) == (if x.timestamp == t then [x] else []) + AtTime(r, t)
  {
    if r == [] || x.timestamp <= r[0].timestamp {
      AtTimeCons(x, r, t);
    } else {
      SortedTail(r);
      var q' := InsertByTime(x, r[1..]);
      assert InsertByTime(x, r) == [r[0]] + q';
      InsertByTimeAtTime(x, r[1..], t);
      AtTimeCons(r[0], q', t);
      AtTimeCons(r[0], r[1..], t);
      assert r == [r[0]] + r[1..];
      var rest := AtTime(r[1..], t);
      if x.timestamp == t {
        assert [] + ([x] + rest) == [x] + ([] + rest);
      } else {
        assert [] + rest == rest;
      }
    }
  }

  /** Logs that share a timestamp leave the sort in the order they entered it. */
  lemma {:induction false} SortByTimeIsStable(s: seq<TimeLog>, t: int)
    ensures AtTime(SortByTime(s), t) == AtTime(s, t)
  {
    if s != [] {
      SortByTimeIsStable(s[1..], t);
      InsertByTimeAtTime(s[0], SortByTime(s[1..]), t);
    }
  }

  // ---------------------------------------------------------------------
  // Appending one log.

  lemma FilterUserAppend(logs: seq<TimeLog>, x: TimeLog, userId: string)
    ensures FilterUser(logs + [x], userId) ==
      if x.userId == userId then FilterUser(logs, userId) + [x] else FilterUser(logs, userId)
  {
    assert (logs + [x])[..|logs|] == logs;
  }

  /** A log of one user leaves every other user's timeline as it was. */
  lemma TimelineOtherUser(logs: seq<TimeLog>, x: TimeLog, userId: string)
    requires x.userId != userId
    ensures UserTimeline(userId, logs + [x]) == UserTimeline(userId, logs)
  {
    FilterUserAppend(logs, x, userId);
  }

  /** A log no earlier than any of the user's logs ends that user's timeline. */
  lemma TimelineAppendLatest(logs: seq<TimeLog>, x: TimeLog)
    requires forall l :: l in logs && l.userId == x.userId ==> l.timestamp <= x.timestamp
    ensures UserTimeline(x.userId, logs + [x]) == UserTimeline(x.userId, logs) + [x]
    ensures LastLog(x.userId, logs + [x]) == Some(x)
  {
    var f := FilterUser(logs, x.userId);
    FilterUserAppend(logs, x, x.userId);
    FilterUserCount(logs, x.userId);
    forall i | 0 <= i < |f| ensures f[i].timestamp <= x.timestamp {
      assert multiset(f)[f[i]] > 0;
      assert f[i] in logs;
    }
    SortAppendLatest(f, x);
  }

  /**
   * A log stamped strictly before the user's last log does not change which
   * log is last: it sorts in ahead of it.
   */
  lemma LastLogIgnoresEarlier(logs: seq<TimeLog>, x: TimeLog)
    requires LastLog(x.userId, logs).Some?
    requires x.timestamp < LastLog(x.userId, logs).value.timestamp
    ensures LastLog(x.userId, logs + [x]) == LastLog(x.userId, logs)
  {
    var f := FilterUser(logs, x.userId);
    FilterUserAppend(logs, x, x.userId);
    LastLogIsLatest(x.userId, logs);
    LastLogIsLatest(x.userId, logs + [x]);
    LatestAppendEarlier(f, x);
  }

  /** Appending an event earlier than the latest one keeps the latest position. */
  lemma LatestAppendEarlier(f: seq<TimeLog>, x: TimeLog)
    requires |f| > 0 && x.timestamp < f[LatestIndex(f)].timestamp
    ensures LatestIndex(f + [x]) == LatestIndex(f)
  {
    var k := LatestIndex(f);
    LatestAtAppend(f, x, k);
    LatestUnique(f + [x], k, LatestIndex(f + [x]));
  }

  lemma LatestAtAppend(f: seq<TimeLog>, x: TimeLog, k: int)
    requires IsLatestAt(f, k) && x.timestamp < f[k].timestamp
    ensures IsLatestAt(f + [x], k)
  {
    var g := f + [x];
    assert forall j :: 0 <= j < |f| ==> g[j] == f[j];
  }
}
