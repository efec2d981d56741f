# Time tracking core of the chat clock-in bot

The bot keeps one list of clock events (CLOCK_IN / CLOCK_OUT, each with a
user and an instant). It derives three things from that list:

- **Daily figures** (`calculateDailyStats`). The user's events are sorted by
  time and walked one by one. A CLOCK_IN opens a session and replaces any
  session already open. A CLOCK_OUT closes the open session and credits its
  whole length, in minutes, to the day the session started. A session still
  open at the end counts up to the current instant, but only when it started
  today. Each day reports its hours, its overtime beyond 8 hours and its
  events. Days are listed newest first.
- **Roster summaries** (`calculateEmployeeStats`). For every roster user, in
  roster order, the daily hours and overtime are summed and rounded to two
  decimals. A user is "working" exactly when their last event in time order
  is a CLOCK_IN, and that event's instant is their last action.
- **Command handling** (`executeCommand`). A CLOCK_IN is refused while the
  user is working and a CLOCK_OUT while they are not. An accepted command
  appends exactly one event, backdated by the offset the user gave. A
  CLOCK_OUT reports how long the session lasted. STATUS reports the user's
  roster summary.

`formatDuration` (minutes shown as "<h>h <m>m") is modelled as well.

Modules:

- `Types` (types.dfy): the records.
- `Timeline` (timeline.dfy): filtering one user's events; the stable sort
  by time; the last event.
- `DailyStats` (daily_stats.dfy): the walk, as a method proved equal to a
  specification by sessions.
- `EmployeeSummaries` (employee_stats.dfy): the roster loop and the
  rounding.
- `App` (app.dfy): a class holding the event list, plus the command
  handler.
- `Duration` (duration.dfy): formatDuration and the reading back of its
  text.

Conventions of the model:

- Instants are whole milliseconds since the epoch.
- A calendar day is a day number, `t / 86400000`, which is a day in UTC.
- `differenceInMinutes` truncates toward zero.
- The sort is modelled by a stable insertion sort. Any stable sort gives
  the same order (`SortByTimeIsStable`): events with equal instants keep
  their order in the filtered list. The filter keeps the logged order
  (`FilterPositions`), so equal instants end up in the order in which they
  were logged.
- Hours are exact reals, and `toFixed(2)` is rounding half away from zero
  to hundredths.

Behaviour of the code worth knowing:

- The code sorts events by instant alone, stably, with no tie-break by id.
- The code does not clamp a negative session length. On a sorted timeline
  a closed session is never negative. An open session whose start is later
  than `now` on the same day gives negative minutes. The non-negativity
  lemmas therefore assume that no event is later than `now`.
- The code raises no validation error of its own. Unknown users simply get
  no data. A Date out of range does throw; see "## Left out".

## Model

| member | source | states |
|---|---|---|
| Timeline.FilterUser | services/timeService.ts:51-52 | the filtered list is no longer than the input and holds only the user's events |
| Timeline.FilterUserCount | services/timeService.ts:51-52 | each of the user's events is kept as often as it occurs, and no other event is kept |
| Timeline.FilterPositions | services/timeService.ts:11 | the filter keeps the logged order: each kept event sits at a position of the log, the positions strictly increase, and every position holding one of the user's events is among them |
| Timeline.InsertByTime | services/timeService.ts:53 | one insertion step of the sort: one element longer, the same multiset plus the new event, still in time order |
| Timeline.SortByTime | services/timeService.ts:53 | the sort returns a permutation of its input, in time order |
| Timeline.UserTimeline | services/timeService.ts:51-53 | the user's timeline is in time order |
| Timeline.UserTimelineCount | services/timeService.ts:51-53 | the timeline holds every event of the user, as often as it was logged, and nothing else |
| Timeline.UserTimelineOwner | services/timeService.ts:51-53 | every event on the timeline belongs to the user |
| Timeline.SortedCons | services/timeService.ts:53 | putting an event no later than the head in front keeps time order |
| Timeline.SortedTail | services/timeService.ts:53 | dropping the head keeps time order |
| Timeline.LatestIndex | services/timeService.ts:28 | the position of the latest event: the largest instant, and the last logged among equal instants |
| Timeline.LatestUnique | services/timeService.ts:28 | there is only one such latest position |
| Timeline.LastOfInsert | services/timeService.ts:53 | an insertion ends with the new event exactly when that event is strictly later than the old last event |
| Timeline.LastOfSortIsLatest | services/timeService.ts:28 | the last element of the sorted list is the latest event of the input |
| Timeline.LastLogIsLatest | services/timeService.ts:28-29 | a user's last event is their latest event, and none when they have no events |
| Timeline.LastLog | App.tsx:101-102 | the last element of the user's timeline, and none when it is empty; LastLogIsLatest proves it is the user's latest event |
| Timeline.IsWorking | App.tsx:103 | working means the last event is a CLOCK_IN; SummaryStatus and the App lemmas prove what the commands do to it |
| Timeline.SortOfSorted | services/timeService.ts:53 | sorting a list already in time order leaves it unchanged |
| Timeline.InsertAppend | services/timeService.ts:53 | inserting before a later final element commutes with appending it |
| Timeline.SortAppendLatest | services/timeService.ts:53 | appending an event no earlier than all others and then sorting equals sorting and then appending it |
| Timeline.AtTimeCons | services/timeService.ts:53 | the events at one instant of a list with a head are the head, when it is at that instant, then those of the tail |
| Timeline.InsertByTimeAtTime | services/timeService.ts:53 | an insertion puts the new event first among those at its instant and leaves the rest in order |
| Timeline.SortByTimeIsStable | services/timeService.ts:53 | the sort is stable: the events at any one instant keep their input order |
| Timeline.FilterUserAppend | App.tsx:114 | filtering after an append adds the new event exactly when it is the user's |
| Timeline.TimelineOtherUser | App.tsx:114 | another user's event leaves a user's timeline unchanged |
| Timeline.TimelineAppendLatest | App.tsx:101-103 | an event no earlier than any of the user's events ends the timeline and becomes the last event |
| Timeline.LastLogIgnoresEarlier | App.tsx:101-103 | an event strictly earlier than the user's last event does not change which event is last |
| Types.DayOf | services/timeService.ts:61 | the calendar day of an instant as a day number; DayOfBounds, DayOfMonotonic and DayOfOffset characterise it |
| Types.DayOfBounds | services/timeService.ts:61 | the day of an instant is the day whose span holds it |
| Types.DayOfMonotonic | services/timeService.ts:61 | a later instant never falls on an earlier day |
| Types.DayOfOffset | services/timeService.ts:61 | an instant inside a day's span falls on that day |
| DailyStats.MinutesBetween | services/timeService.ts:80 | the whole minutes elapsed, truncated toward zero: r·60000 ≤ later − earlier < (r + 1)·60000 when not negative, (r − 1)·60000 < later − earlier ≤ r·60000 when negative |
| DailyStats.MinutesBetweenAntisymmetric | services/timeService.ts:80 | swapping the two instants negates the minutes |
| DailyStats.MinutesBetweenWhole | services/timeService.ts:80 | a gap of exactly k minutes counts as k |
| DailyStats.ToDailyStat | services/timeService.ts:102-110 | hours are minutes over 60; overtime is max(0, hours − 8); the entry's events are the day's events, in time order |
| DailyStats.PairCredit | services/timeService.ts:68-81 | a session is a CLOCK_IN immediately followed, on the sorted timeline, by a CLOCK_OUT; it credits its whole length in minutes to the CLOCK_IN's day and nothing to any other day; ClosingLog, OrphanClockOut and SupersededClockIn prove this is what the walk does |
| DailyStats.ClosedMinutes | services/timeService.ts:59-85 | a day's closed minutes are the sum of what every adjacent pair of the timeline credits to it; ClosedMinutesNonNegative and ClosedMinutesPrefix state its properties |
| DailyStats.OpenMinutes | services/timeService.ts:88-100 | a timeline ending in a CLOCK_IN on the same day as `now` credits the minutes up to `now` to that day, and nothing otherwise; OpenSessionCredit and RunningSession state its effect |
| DailyStats.DailyStatsOf | services/timeService.ts:50-112 | the specification by sessions that the method is proved equal to; DailyStatsShape, DailyStatsLogsOnDay, DailyStatsCoversLogs, ClosingLog and the scenario lemmas state its properties |
| DailyStats.CalculateDailyStats | services/timeService.ts:50-112 | the method's result equals the specification by sessions, `DailyStatsOf` |
| DailyStats.WalkTimeline | services/timeService.ts:55-100 | after the walk, the keys are the timeline's days in first-seen order, and each day's bucket holds that day's events and the minutes of its closed and running sessions |
| DailyStats.WalkLog | services/timeService.ts:59-85 | one step keeps the walk invariant: a new day's bucket is created, the event is listed, a CLOCK_IN becomes the open start, and a CLOCK_OUT after a CLOCK_IN credits the start's day |
| DailyStats.FinalizeBuckets | services/timeService.ts:102-111 | converting and ordering the walk's map gives the specified entries |
| DailyStats.OpenSessionCredit | services/timeService.ts:88-100 | a session still open is credited up to `now` to its start day, and only when that day is today |
| DailyStats.DaysSpec | services/timeService.ts:61-65 | the map's keys are exactly the days with events, each once |
| DailyStats.DaysAscending | services/timeService.ts:61-65 | on a sorted timeline the keys are inserted oldest day first |
| DailyStats.DayLogsSpec | services/timeService.ts:66 | a day's bucket holds exactly that day's events, each as often as it occurs |
| DailyStats.DayLogsSorted | services/timeService.ts:66 | a day's events are already in time order |
| DailyStats.InsertByDateDesc | services/timeService.ts:111 | one insertion step of the newest-first sort: one element longer |
| DailyStats.SortByDateDesc | services/timeService.ts:111 | the newest-first sort keeps the length |
| DailyStats.InsertByDateDescCount | services/timeService.ts:111 | an insertion adds exactly the new entry |
| DailyStats.InsertByDateDescSorted | services/timeService.ts:111 | inserting into entries newest first keeps them newest first |
| DailyStats.SortByDateDescSorted | services/timeService.ts:111 | the sort returns its entries newest first |
| DailyStats.SortByDateDescCount | services/timeService.ts:111 | the sort returns a permutation of its input |
| DailyStats.InsertOldest | services/timeService.ts:111 | an entry older than all the others is placed last |
| DailyStats.SortByDateDescOfAscending | services/timeService.ts:111 | entries with strictly increasing dates come out of the newest-first sort reversed |
| DailyStats.DailyStatsShape | services/timeService.ts:102-111 | one entry per day with events, newest day first, each entry being that day's bucket |
| DailyStats.DayEntriesAscending | services/timeService.ts:102 | the map's entries come in ascending date order |
| DailyStats.DayStatLogs | services/timeService.ts:109 | a day's entry has the day as its date and lists the day's events in time order |
| DailyStats.EntryOnDay | services/timeService.ts:66-109 | a day's entry holds only the user's events of that day, in time order |
| DailyStats.EntriesOnDay | services/timeService.ts:66-109 | the same holds for every entry of the result |
| DailyStats.DailyStatsLogsOnDay | services/timeService.ts:51-109 | every entry lists only the user's events that fall on its date, in time order |
| DailyStats.EntryCovers | services/timeService.ts:66 | an event of the timeline is in the entry of its own day, as often as on the timeline |
| DailyStats.DailyStatsCoversLogs | services/timeService.ts:51-66 | every event of the user appears in the entry of its own day, as often as it was logged |
| DailyStats.ClosedMinutesNonNegative | services/timeService.ts:80-81 | on a sorted timeline no closed session has negative length |
| DailyStats.DayStatNonNegative | services/timeService.ts:88-104 | when no event is later than `now`, a day's overtime is between 0 and its hours |
| DailyStats.EntriesNonNegative | services/timeService.ts:102-104 | the same for every entry of a result |
| DailyStats.DailyHoursNonNegative | services/timeService.ts:50-112 | when none of the user's events is later than `now`, every day's overtime is between 0 and its hours |
| DailyStats.ClosedMinutesPrefix | services/timeService.ts:59-85 | the closed minutes of a prefix depend only on that prefix |
| DailyStats.DayLogsPrefix | services/timeService.ts:66 | a day's events within a prefix depend only on that prefix |
| DailyStats.ClosingLog | services/timeService.ts:66-83 | a new last event credits a day only when it is a CLOCK_OUT right after a CLOCK_IN on that day, and it is listed on its own day |
| DailyStats.OrphanClockOut | services/timeService.ts:66-70 | a CLOCK_OUT with no open session credits no day, yet is listed on its own day |
| DailyStats.SupersededClockIn | services/timeService.ts:68-69 | after CLOCK_IN a, CLOCK_IN b, CLOCK_OUT c only the minutes from b to c are credited, to b's day |
| DailyStats.MidnightSession | services/timeService.ts:71-81 | a session from 23:50 to 00:10 gives its 20 minutes to the start day and none to the next day |
| DailyStats.ClockMattersOnlyWhenRunning | services/timeService.ts:88-100 | the clock changes the result only through a session still open on the clock's day |
| DailyStats.RunningSession | services/timeService.ts:88-98 | a CLOCK_IN 90 minutes before `now`, on the same day, adds an hour and a half to that day |
| EmployeeSummaries.Round2 | services/timeService.ts:40-41 | rounding to two decimals moves a value by at most half a hundredth |
| EmployeeSummaries.Round2Cents | services/timeService.ts:40-41 | the rounded value is a whole number of hundredths |
| EmployeeSummaries.Round2Exact | services/timeService.ts:40-41 | a value that already is whole hundredths is kept |
| EmployeeSummaries.Round2Monotone | services/timeService.ts:40-41 | rounding keeps the order of its inputs |
| EmployeeSummaries.FloorMonotone | services/timeService.ts:40-41 | rounding down keeps order |
| EmployeeSummaries.WorkedMinutes | services/timeService.ts:24 | the reduce summing the days' hours in minutes; OvertimeWithinWorked and TwoDaySums state its values |
| EmployeeSummaries.OvertimeMinutes | services/timeService.ts:25 | the reduce summing the days' overtime in minutes; OvertimeWithinWorked bounds it by the worked minutes |
| EmployeeSummaries.OvertimeWithinWorked | services/timeService.ts:24-25 | if every day has overtime between 0 and its hours, the summed overtime is between 0 and the summed hours |
| EmployeeSummaries.Summarize | services/timeService.ts:36-44 | the pushed entry: the user's id, name and avatar, the summed hours and overtime rounded to hundredths, working exactly when the last event is a CLOCK_IN, and the last event's instant as last action; SummarizeBounds states its bounds |
| EmployeeSummaries.EmployeeSummary | services/timeService.ts:9-44 | the specification of one user's summary, from DailyStatsOf and LastLog; SummaryStatus, IdleUser, SummaryHoursBounds, OtherUsersIgnored and TwoDaySums state its properties |
| EmployeeSummaries.CalculateEmployeeStats | services/timeService.ts:6-48 | one summary per roster user, in roster order, each equal to that user's `EmployeeSummary` |
| EmployeeSummaries.SummarizeUser | services/timeService.ts:9-44 | one roster user's summary: summed and rounded daily figures, plus the status and last action of the last event |
| EmployeeSummaries.BuildEntry | services/timeService.ts:23-42 | the entry built from the daily figures and the sorted events: their sums in hours rounded to cents, and the status and last action taken from the last sorted event |
| EmployeeSummaries.SummaryStatus | services/timeService.ts:16-34 | working exactly when the user's latest event is a CLOCK_IN, and its instant is the last action; a user without events is offline with no last action |
| EmployeeSummaries.IdleUser | services/timeService.ts:6-48 | a user with no events gets 0 hours, 0 overtime, offline and no last action |
| EmployeeSummaries.SummarizeBounds | services/timeService.ts:24-41 | daily figures with overtime between 0 and the hours give rounded totals with the same bounds |
| EmployeeSummaries.SummaryHoursBounds | services/timeService.ts:6-48 | when no event of the user is later than `now`, the reported overtime is between 0 and the reported hours |
| EmployeeSummaries.OtherUsersIgnored | services/timeService.ts:10-21 | events of other users do not change a user's summary |
| EmployeeSummaries.TwoDaySums | services/timeService.ts:24-41 | days of 8.5 h and 9 h report 17.5 h with 1.5 h of overtime |
| App.MockUsers | App.tsx:10-15 | the fixed roster of four users, three employees and one admin |
| App.MockUsersDistinct | App.tsx:10-15 | no two roster users share an id, so STATUS finds each member's own summary |
| App.EffectiveTime | App.tsx:98 | with no offset the command takes effect now; otherwise `now` minus the offset in minutes |
| App.FindUser | App.tsx:140 | the first roster entry with the id, and none exactly when no entry has it |
| App.FindUserUnique | App.tsx:10-15 | in a roster whose ids are distinct, looking up a member's id finds that very member |
| App.FindStats | App.tsx:140 | the first summary with the user id, and none exactly when no summary has it |
| App.FindStatsOfSummaries | App.tsx:139-140 | finding a user among the roster's summaries gives the summary of the first roster entry with that id |
| App.StatusReply | App.tsx:137-147 | the STATUS answer: the summary of the first roster entry with the id, or no data; StatusReplyOfRoster proves which summary that is |
| App.StatusReplyOfRoster | App.tsx:137-147 | STATUS for a roster member reports that member's own summary, and "no data" for an id outside the roster |
| App.SessionHours | App.tsx:130-132 | the session length in hours to two decimals, within half a hundredth of the exact length |
| App.AppState.constructor | App.tsx:35 | the event list starts empty |
| App.AppState.ExecuteCommand | App.tsx:95-151 | refusals and STATUS/unknown leave the events unchanged; an accepted CLOCK_IN or CLOCK_OUT appends exactly one event of the user at the effective time; a CLOCK_OUT reports the rounded hours since the last event; STATUS reports the roster summary |
| App.ClockInMakesWorking | App.tsx:105-115 | a CLOCK_IN no earlier than any of the user's events leaves the user working and other users' timelines unchanged |
| App.ClockOutEndsWork | App.tsx:118-127 | a CLOCK_OUT no earlier than any of the user's events ends the session and becomes the last event |
| App.BackdatedClockInLeavesOffline | App.tsx:98-114 | a CLOCK_IN backdated before the user's last CLOCK_OUT is accepted, yet the user stays offline |
| Duration.DigitValue | services/timeService.ts:117 | a character has a digit value exactly when it is a decimal digit, and that value's digit is the character |
| Duration.NatToString | services/timeService.ts:117 | the decimal text is non-empty digits without a leading zero |
| Duration.IntToString | services/timeService.ts:117 | the text of an integer is digits, after a '-' when negative |
| Duration.ParseNatToString | services/timeService.ts:117 | reading the digits of n gives n back |
| Duration.ParseIntToString | services/timeService.ts:117 | reading the text of an integer gives it back |
| Duration.WholeHours | services/timeService.ts:115 | the hours are rounded down: h·60 ≤ minutes < h·60 + 60 |
| Duration.RemainderMinutes | services/timeService.ts:116 | the minutes part lies strictly between −60 and 60, has the sign of the duration and differs from it by a multiple of 60, which fixes its value |
| Duration.IndexOf | services/timeService.ts:117 | the first position of a character, and none exactly when it is absent |
| Duration.FormatDuration | services/timeService.ts:114-118 | the text "<h>h <m>m" of the hours rounded down and the JavaScript remainder; FormatDurationParses, FormatDurationRoundTrip and FormatDurationNegative state what it means |
| Duration.FormatDurationParses | services/timeService.ts:114-118 | the text reads back as its hours part and its minutes part |
| Duration.FormatDurationRoundTrip | services/timeService.ts:114-118 | for a duration that is not negative, the text reads back as hours and 0–59 minutes that add up to the duration |
| Duration.FormatDurationNegative | services/timeService.ts:114-118 | for a negative duration that is not whole hours, the two parts add up to an hour less than the duration |
| Duration.FormatDurationMinusThirty | services/timeService.ts:114-118 | −30 minutes is written "-1h -30m" |

## Left out

- The intent classifier is not part of this model: the remote language
  model service and its keyword fallback (services/geminiService.ts).
  `ExecuteCommand` takes the intent and the offset as parameters.
- The `!in` / `!out` / `!stats` prefix dispatch in the chat input, the UI,
  theming, the dashboard and the mock-data generator are not part of this
  model.
- Message wording and `toLocaleTimeString` formatting are left out. Replies
  are a datatype carrying the instants and numbers the messages show.
- `new Date()` and `Date.now()` are parameters: `now` for the clock and
  `newId` for the new event's id. The code reads the clock several times:
  at App.tsx:97, and again in every `calculateDailyStats` call
  (services/timeService.ts:92), so once per roster user. The model uses one
  reading for all of them. Those readings can differ when a minute or day
  boundary passes between them.
- ISO timestamp strings are whole milliseconds since the epoch. A day key
  (`startOfDay(...).toISOString()`) is a day number.
- Host-local time zones are not modelled: days are UTC days.
- Floating point is not modelled: hours are exact reals, so binary rounding
  effects of `/ 60`, `reduce` and `toFixed(2)` are not captured.
- App.EffectiveTime: fractional offsets are not modelled. Offsets are whole
  minutes.
- Duration.FormatDuration: fractional minutes are not modelled. For whole
  minutes `Math.round` changes nothing. JavaScript writes −0 as "0", the
  same as 0.
- App.AppState.ExecuteCommand: instants are unbounded integers, while a
  JavaScript Date holds only ±8.64e15 ms. An offset that moves the
  effective time out of that range (about 1e12 minutes) makes
  `toISOString()` throw a RangeError at App.tsx:112 or :125, before
  anything is appended, and the chat only logs the error. For such
  offsets the model appends the event and replies ClockedIn / ClockedOut.
- App.AppState.ExecuteCommand: the handler reads `logs` as the render that
  created it saw them. React applies the functional update `setLogs` later.
  Both effects are modelled as one atomic step on the current list, so a
  stale closure between two quick commands is not captured.
