/** The records the time-tracking core reads and produces (types.ts). */
module Types {

  datatype Option<+T> = None | Some(value: T)

  /** The two kinds of clock event. */
  datatype LogType = ClockIn | ClockOut

  /**
   * One clock event. `timestamp` is the ISO instant of the source, kept as
   * milliseconds since the epoch.
   */
  datatype TimeLog = TimeLog(id: string, userId: string, kind: LogType, timestamp: int, notes: Option<string>)

  datatype Role = Admin | Employee

  datatype User = User(id: string, username: string, avatar: string, role: Role)

  datatype Status = Working | Offline

  /** One roster member's summary, as shown on the dashboard. */
  datatype EmployeeStats = EmployeeStats(
    userId: string,
    username: string,
    avatar: string,
    totalHours: real,
    overtimeHours: real,
    status: Status,
    lastAction: Option<int>)

  /** One calendar day of one user; `date` is the day number (see DayOf). */
  datatype DailyStat = DailyStat(date: int, totalHours: real, overtimeHours: real, logs: seq<TimeLog>)

  /** What the chat layer made of a message. */
  datatype BotIntent = IntentClockIn | IntentClockOut | IntentStatus | IntentUnknown

  const MsPerMinute: int := 60000
  const MsPerHour: int := 3600000
  const MsPerDay: int := 86400000

  /** The length of a standard working day; hours beyond it are overtime. */
  const StandardWorkDayHours: real := 8.0

  /**
   * The calendar day an instant falls on, as a day number in one fixed
   * offset (UTC). Division by a positive constant floors, as startOfDay does.
   */
  function DayOf(t: int): int {
    t / MsPerDay
  }

  /** DayOf(t) is the day whose span of milliseconds holds t. */
  lemma DayOfBounds(t: int)
    ensures DayOf(t) * MsPerDay <= t < (DayOf(t) + 1) * MsPerDay
  {
  }

  /** Later instants never fall on earlier days. */
  lemma DayOfMonotonic(t: int, u: int)
    requires t <= u
    ensures DayOf(t) <= DayOf(u)
  {
    DayOfBounds(t);
    DayOfBounds(u);
  }

  /** An instant `off` milliseconds into day `day` falls on that day. */
  lemma DayOfOffset(day: int, off: int)
    requires 0 <= off < MsPerDay
    ensures DayOf(day * MsPerDay + off) == day
  {
    DayOfBounds(day * MsPerDay + off);
  }
}
