/** The `/protein-logs` router, for the signed-in user: logging an intake, listing
    the user's logs, today's summary, deleting a log and the weekly summary. The
    clock is a parameter: `now` is the insert time in seconds and `today` the
    current calendar day (days since the epoch). */
module ProteinLogs {
  import opened Wrappers
  import opened Seqs
  import opened Sorting
  import opened Http
  import opened Models

  const MaxListLimit := 100
  const DefaultListLimit := 50
  const DaysPerWeek := 7

  function Amount(l: ProteinLog): real { l.proteinAmount }
  function LoggedAtKey(l: ProteinLog): real { l.loggedAt as real }

  /** A log of the user on the given day. */
  function OnDay(userId: int, day: int): ProteinLog -> bool {
    (l: ProteinLog) => l.userId == userId && DayOf(l.loggedAt) == day
  }

  /** A log of the user on a day from `first` up to, not including, `last`. */
  function InDays(userId: int, first: int, last: int): ProteinLog -> bool {
    (l: ProteinLog) => l.userId == userId && first <= DayOf(l.loggedAt) < last
  }

  /** `POST /protein-logs/`: a new row with the next id, owned by the current user and
      stamped with the insert time, appended to the table; the reply is the row. */
  function CreateLog(logs: seq<ProteinLog>, user: User, foodName: string, amount: real, now: int)
    : (r: (seq<ProteinLog>, ProteinLog))
    ensures r.0 == logs + [r.1]
    ensures r.1.userId == user.id && r.1.foodName == foodName && r.1.proteinAmount == amount && r.1.loggedAt == now
    ensures forall l | l in logs :: l.id < r.1.id
    ensures UniqueIds(logs, LogId) ==> UniqueIds(r.0, LogId)
  {
    var log := ProteinLog(NextId(logs, LogId), user.id, foodName, amount, now);
    if UniqueIds(logs, LogId) then AppendFreshId(logs, log, LogId); (logs + [log], log)
    else (logs + [log], log)
  }

  /** Logging for a user that exists keeps every log's owner an existing user. */
  lemma CreateLogKeepsOwners(users: seq<User>, logs: seq<ProteinLog>, user: User, foodName: string, amount: real, now: int)
    requires user in users
    requires LogsReferenceUsers(users, logs)
    ensures LogsReferenceUsers(users, CreateLog(logs, user, foodName, amount, now).0)
  {
    var r := CreateLog(logs, user, foodName, amount, now);
    forall l | l in r.0
      ensures exists u | u in users :: u.id == l.userId
    {
      if l == r.1 {
        assert user.id == l.userId;
      }
    }
  }

  /** The filter of the list endpoint: the user's logs, on the given day if one is. */
  function ListedBy(userId: int, day: Option<int>): ProteinLog -> bool {
    (l: ProteinLog) => l.userId == userId && (day.Some? ==> DayOf(l.loggedAt) == day.value)
  }

  /** `GET /protein-logs/`: the user's logs (of one day, if a date is given), newest
      first, at most `limit`; a limit above 100 is rejected. Omitted, there is no
      date and the limit is 50. */
  function GetLogs(logs: seq<ProteinLog>, userId: int, day: Option<int> := None, limit: int := DefaultListLimit)
    : (r: Result<seq<ProteinLog>, ApiError>)
    ensures r.Err? <==> limit > MaxListLimit
    ensures r.Err? ==> r.error == Unprocessable("limit")
    ensures r.Ok? ==> forall l | l in r.value :: l in logs && l.userId == userId
    ensures r.Ok? && day.Some? ==> forall l | l in r.value :: DayOf(l.loggedAt) == day.value
    ensures r.Ok? ==> SortedDesc(r.value, LoggedAtKey)
    ensures r.Ok? && limit >= 0 ==> |r.value| <= limit
    ensures r.Ok? ==> forall l | l in logs && ListedBy(userId, day)(l) && l !in r.value ::
                        |r.value| == limit && forall m | m in r.value :: m.loggedAt >= l.loggedAt
  {
    if limit > MaxListLimit then Err(Unprocessable("limit"))
    else Ok(TopBy(Filter(logs, ListedBy(userId, day)), LoggedAtKey, limit))
  }

  /** With its query parameters omitted, the log list holds at most the user's 50
      newest logs, of any day. */
  lemma GetLogsDefaults(logs: seq<ProteinLog>, userId: int)
    ensures GetLogs(logs, userId).Ok? && |GetLogs(logs, userId).value| <= DefaultListLimit
    ensures forall l | l in logs && l.userId == userId && l !in GetLogs(logs, userId).value ::
              |GetLogs(logs, userId).value| == DefaultListLimit
              && forall m | m in GetLogs(logs, userId).value :: m.loggedAt >= l.loggedAt
  {
    assert forall l | l in logs && l.userId == userId :: ListedBy(userId, None)(l);
  }

  /** Today's reply. `logs` are the user's logs of the day in table order. */
  datatype TodaySummary = TodaySummary(
    day: int, totalProtein: real, goal: int, remaining: real, progressPercent: real, logCount: int, logs: seq<ProteinLog>)

  /** `max(goal - total, 0)`: what is left to eat, never negative. */
  function Remaining(total: real, goal: int): (r: real)
    ensures r >= 0.0 && r + total >= goal as real
    ensures r == 0.0 || r + total == goal as real
  {
    if goal as real - total >= 0.0 then goal as real - total else 0.0
  }

  /** `min(total / goal * 100, 100)` for a positive goal, 0 otherwise. */
  function ProgressPercent(total: real, goal: int): (p: real)
    ensures p <= 100.0
    ensures goal <= 0 ==> p == 0.0
    ensures goal > 0 ==> (p == 100.0 <==> total >= goal as real)
    ensures goal > 0 && total < goal as real ==> p * goal as real == total * 100.0
  {
    if goal > 0 then
      var g := goal as real;
      var x := total / g * 100.0;
      assert x * g == total * 100.0;
      assert x >= 100.0 <==> total >= g by {
        assert x == total * (100.0 / g);
        assert 100.0 == g * (100.0 / g);
      }
      if x <= 100.0 then x else 100.0
    else 0.0
  }

  /** The user's logs of one day, in table order. */
  function LogsOn(logs: seq<ProteinLog>, userId: int, day: int): (r: seq<ProteinLog>)
    ensures forall l | l in r :: l in logs && l.userId == userId && DayOf(l.loggedAt) == day
    ensures forall l | l in logs && l.userId == userId && DayOf(l.loggedAt) == day :: l in r
  {
    Filter(logs, OnDay(userId, day))
  }

  /** The figures of today's reply for the day's logs and a goal: the total, what
      is left to reach the goal, and the percentage reached, capped at 100. */
  function Summarize(todays: seq<ProteinLog>, goal: int, today: int): (s: TodaySummary)
    ensures s.day == today && s.goal == goal && s.logs == todays && s.logCount == |todays|
    ensures s.totalProtein == SumBy(todays, Amount)
    ensures s.remaining >= 0.0 && s.remaining + s.totalProtein >= goal as real
    ensures s.remaining == 0.0 || s.remaining + s.totalProtein == goal as real
    ensures s.progressPercent <= 100.0
    ensures goal <= 0 ==> s.progressPercent == 0.0
    ensures goal > 0 ==> (s.progressPercent == 100.0 <==> s.totalProtein >= goal as real)
    ensures goal > 0 && s.totalProtein < goal as real ==> s.progressPercent * goal as real == s.totalProtein * 100.0
  {
    var total := SumBy(todays, Amount);
    TodaySummary(today, total, goal, Remaining(total, goal), ProgressPercent(total, goal), |todays|, todays)
  }

  /** `GET /protein-logs/today`: the summary of the user's logs of today. A NULL goal
      makes the subtraction fail, so the request ends in a server error. */
  function Today(user: User, logs: seq<ProteinLog>, today: int): (r: Result<TodaySummary, ApiError>)
    ensures r.Err? <==> user.proteinGoal.None?
    ensures r.Err? ==> r.error == Internal
    ensures r.Ok? ==> r.value == Summarize(LogsOn(logs, user.id, today), user.proteinGoal.value, today)
  {
    match user.proteinGoal
    case None => Err(Internal)
    case Some(goal) => Ok(Summarize(LogsOn(logs, user.id, today), goal, today))
  }

  /** The filter of the delete endpoint: the log with the id, owned by the user. */
  function OwnedLog(logId: int, userId: int): ProteinLog -> bool {
    (l: ProteinLog) => l.id == logId && l.userId == userId
  }

  /** `DELETE /protein-logs/{log_id}`: removes the first log with the id that belongs
      to the user; one of another user, or none at all, is "Log not found". */
  function DeleteLog(logs: seq<ProteinLog>, userId: int, logId: int): (r: Result<seq<ProteinLog>, ApiError>)
    ensures r.Err? <==> forall l | l in logs :: !(l.id == logId && l.userId == userId)
    ensures r.Err? ==> r.error == NotFound("Log not found")
    ensures r.Ok? ==> exists k | 0 <= k < |logs| ::
              logs[k].id == logId && logs[k].userId == userId && r.value == RemoveAt(logs, k)
    ensures r.Ok? ==> |r.value| == |logs| - 1
    ensures r.Ok? ==> forall l | l in logs && l.id != logId :: l in r.value
  {
    var k := FindIndex(logs, OwnedLog(logId, userId));
    if k < 0 then
      NoneOwned(logs, userId, logId);
      Err(NotFound("Log not found"))
    else
      assert OwnedLog(logId, userId)(logs[k]);
      RemoveAtKeepsOthers(logs, k);
      Ok(RemoveAt(logs, k))
  }

  /** When no index holds an owned log with the id, no log at all is one. */
  lemma NoneOwned(logs: seq<ProteinLog>, userId: int, logId: int)
    requires forall j :: 0 <= j < |logs| ==> !OwnedLog(logId, userId)(logs[j])
    ensures forall l | l in logs :: !(l.id == logId && l.userId == userId)
  {
    forall l | l in logs
      ensures !(l.id == logId && l.userId == userId)
    {
      var j :| 0 <= j < |logs| && logs[j] == l;
      assert !OwnedLog(logId, userId)(logs[j]);
    }
  }

  /** The table without its `k`-th row. */
  function RemoveAt(logs: seq<ProteinLog>, k: nat): (r: seq<ProteinLog>)
    requires k < |logs|
    ensures |r| == |logs| - 1
  {
    logs[..k] + logs[k + 1..]
  }

  /** Removing the `k`-th row keeps every row that differs from it, and every other
      row's position is taken by the next one. */
  lemma RemoveAtKeepsOthers(logs: seq<ProteinLog>, k: nat)
    requires k < |logs|
    ensures forall l | l in logs && l != logs[k] :: l in RemoveAt(logs, k)
    ensures forall j | 0 <= j < |logs| - 1 :: RemoveAt(logs, k)[j] == if j < k then logs[j] else logs[j + 1]
  {
    var r := RemoveAt(logs, k);
    forall l | l in logs && l != logs[k]
      ensures l in r
    {
      var j :| 0 <= j < |logs| && logs[j] == l;
      if j < k {
        assert r[j] == l;
      } else {
        assert r[j - 1] == l;
      }
    }
  }

  /** With unique ids, a deleted log is gone: deleting it again is "Log not found". */
  lemma DeleteTwiceNotFound(logs: seq<ProteinLog>, userId: int, logId: int)
    requires UniqueIds(logs, LogId)
    requires DeleteLog(logs, userId, logId).Ok?
    ensures DeleteLog(DeleteLog(logs, userId, logId).value, userId, logId) == Err(NotFound("Log not found"))
  {
    var rest := DeleteLog(logs, userId, logId).value;
    var k :| 0 <= k < |logs| && logs[k].id == logId && logs[k].userId == userId && rest == RemoveAt(logs, k);
    RemovedIdIsGone(logs, k);
  }

  /** With unique ids, no row left after removing the `k`-th has its id. */
  lemma RemovedIdIsGone(logs: seq<ProteinLog>, k: nat)
    requires UniqueIds(logs, LogId)
    requires k < |logs|
    ensures forall l | l in RemoveAt(logs, k) :: l.id != logs[k].id
  {
    var rest := RemoveAt(logs, k);
    RemoveAtKeepsOthers(logs, k);
    forall l | l in rest
      ensures l.id != logs[k].id
    {
      var j :| 0 <= j < |rest| && rest[j] == l;
      var source := if j < k then j else j + 1;
      assert l == logs[source] && source != k;
    }
  }

  /** One day of the weekly reply. */
  datatype DayTotal = DayTotal(day: int, protein: real, goalMet: bool)

  function DayProtein(d: DayTotal): real { d.protein }

  /** The `SUM` of the user's amounts on a day; `SUM` over no rows is NULL, which the
      code replaces by 0. */
  function ProteinOn(logs: seq<ProteinLog>, userId: int, day: int): real {
    SumBy(LogsOn(logs, userId, day), Amount)
  }

  /** Whether a day's total reaches the goal. */
  predicate Reaches(total: real, goal: int) {
    total >= goal as real
  }

  /** The `n` days from `first` with their totals and whether each met the goal. */
  function Days(logs: seq<ProteinLog>, userId: int, goal: int, first: int, n: nat): (r: seq<DayTotal>)
    ensures |r| == n
    ensures forall i | 0 <= i < n :: r[i].day == first + i && r[i].protein == ProteinOn(logs, userId, first + i)
    ensures forall i | 0 <= i < n :: r[i].goalMet == Reaches(r[i].protein, goal)
  {
    seq(n, i requires 0 <= i < n =>
      var p := ProteinOn(logs, userId, first + i); DayTotal(first + i, p, Reaches(p, goal)))
  }

  /** The positions of the days that met the goal. */
  function MetIndices(days: seq<DayTotal>): set<int> {
    set i | 0 <= i < |days| && days[i].goalMet
  }

  /** The number of days that met the goal. */
  function CountGoalMet(days: seq<DayTotal>): (r: nat)
    ensures r == |MetIndices(days)|
    ensures r <= |days|
    ensures r == 0 <==> forall i | 0 <= i < |days| :: !days[i].goalMet
    ensures r == |days| <==> forall i | 0 <= i < |days| :: days[i].goalMet
  {
    if |days| == 0 then
      assert MetIndices(days) == {};
      0
    else
      var k := |days| - 1;
      var rest := CountGoalMet(days[..k]);
      MetIndicesSnoc(days);
      rest + (if days[k].goalMet then 1 else 0)
  }

  /** The positions meeting the goal are those of all days but the last, plus the
      last one when it meets the goal. */
  lemma MetIndicesSnoc(days: seq<DayTotal>)
    requires |days| > 0
    ensures var k := |days| - 1;
            MetIndices(days) == MetIndices(days[..k]) + (if days[k].goalMet then {k} else {})
            && k !in MetIndices(days[..k])
  {
    var k := |days| - 1;
    assert forall i | 0 <= i < k :: days[..k][i] == days[i];
  }

  /** The weekly reply. */
  datatype WeeklySummary = WeeklySummary(
    weekStart: int, weekEnd: int, days: seq<DayTotal>, totalWeekly: real, averageDaily: real,
    daysGoalMet: nat, goal: int)

  /** The figures of the weekly reply for a goal: the seven days ending today, their
      sum, its daily average and the number of days that met the goal. */
  function Week(logs: seq<ProteinLog>, userId: int, goal: int, today: int): (w: WeeklySummary)
    ensures w.weekStart == today - (DaysPerWeek - 1) && w.weekEnd == today && w.goal == goal
    ensures w.days == Days(logs, userId, goal, w.weekStart, DaysPerWeek)
    ensures w.totalWeekly == SumBy(Filter(logs, InDays(userId, w.weekStart, w.weekStart + DaysPerWeek)), Amount)
    ensures w.averageDaily * DaysPerWeek as real == w.totalWeekly
    ensures w.daysGoalMet == CountGoalMet(w.days) <= DaysPerWeek
  {
    var start := today - (DaysPerWeek - 1);
    var days := Days(logs, userId, goal, start, DaysPerWeek);
    var total := SumBy(days, DayProtein);
    DaysSumToWindow(logs, userId, goal, start, DaysPerWeek);
    WeeklySummary(start, today, days, total, total / DaysPerWeek as real, CountGoalMet(days), goal)
  }

  /** The days of `[first, first + n)` on which the user's logged protein reached the goal. */
  function GoalDays(logs: seq<ProteinLog>, userId: int, goal: int, first: int, n: nat): set<int> {
    set d | first <= d < first + n && Reaches(ProteinOn(logs, userId, d), goal)
  }

  /** The weekly goal count is the number of calendar days of the week on which the
      user's logged protein reached the goal. */
  lemma WeekCountsGoalDays(logs: seq<ProteinLog>, userId: int, goal: int, today: int)
    ensures var w := Week(logs, userId, goal, today);
            w.daysGoalMet == |GoalDays(logs, userId, goal, w.weekStart, DaysPerWeek)|
  {
    DaysCountGoalDays(logs, userId, goal, today - (DaysPerWeek - 1), DaysPerWeek);
  }

  /** Of `n` consecutive daily totals from `first`, as many meet the goal as there
      are goal days in `[first, first + n)`. */
  lemma DaysCountGoalDays(logs: seq<ProteinLog>, userId: int, goal: int, first: int, n: nat)
    ensures CountGoalMet(Days(logs, userId, goal, first, n)) == |GoalDays(logs, userId, goal, first, n)|
  {
    MetPositionsAreGoalDays(Days(logs, userId, goal, first, n), logs, userId, goal, first);
  }

  /** When the `i`-th of a run of days meets the goal exactly when day `first + i`
      does, the positions meeting it are as many as the goal days. */
  lemma MetPositionsAreGoalDays(days: seq<DayTotal>, logs: seq<ProteinLog>, userId: int, goal: int, first: int)
    requires forall i | 0 <= i < |days| :: days[i].protein == ProteinOn(logs, userId, first + i)
    requires forall i | 0 <= i < |days| :: days[i].goalMet == Reaches(days[i].protein, goal)
    ensures |MetIndices(days)| == |GoalDays(logs, userId, goal, first, |days|)|
  {
    var goalDays := GoalDays(logs, userId, goal, first, |days|);
    forall d ensures d in goalDays <==> first <= d < first + |days| && days[d - first].goalMet {
      if first <= d < first + |days| {
        assert days[d - first].protein == ProteinOn(logs, userId, d);
      }
    }
    MetPositionsShift(days, first, goalDays);
  }

  /** The days `first + i` for the positions `i` meeting the goal are as many as
      those positions. */
  lemma MetPositionsShift(days: seq<DayTotal>, first: int, goalDays: set<int>)
    requires forall d :: d in goalDays <==> first <= d < first + |days| && days[d - first].goalMet
    ensures |MetIndices(days)| == |goalDays|
  {
    var positions := MetIndices(days);
    var shifted := set i | i in positions :: i + first;
    forall d | d in goalDays ensures d in shifted {
      assert d - first in positions;
    }
    assert goalDays == shifted;
    ShiftCardinality(positions, first);
  }

  /** Shifting a set of integers keeps its size. */
  lemma {:induction false} ShiftCardinality(s: set<int>, a: int)
    ensures |set i | i in s :: i + a| == |s|
  {
    var image := set i | i in s :: i + a;
    if |s| == 0 {
      assert image == {};
    } else {
      assert exists y :: y in s by {
        if forall y :: y !in s {
          assert false;
        }
      }
      var x :| x in s;
      var smaller := set i | i in s - {x} :: i + a;
      ShiftCardinality(s - {x}, a);
      assert x + a !in smaller;
      assert image == smaller + {x + a} by {
        forall y | y in image ensures y in smaller + {x + a} {
          var i :| i in s && y == i + a;
          if i != x {
            assert i in s - {x};
          }
        }
        assert x + a in image;
      }
    }
  }

  /** `GET /protein-logs/weekly`. The first comparison with a NULL goal fails, so the
      request ends in a server error. */
  function Weekly(user: User, logs: seq<ProteinLog>, today: int): (r: Result<WeeklySummary, ApiError>)
    ensures r.Err? <==> user.proteinGoal.None?
    ensures r.Err? ==> r.error == Internal
    ensures r.Ok? ==> r.value == Week(logs, user.id, user.proteinGoal.value, today)
  {
    match user.proteinGoal
    case None => Err(Internal)
    case Some(goal) => Ok(Week(logs, user.id, goal, today))
  }

  /** Summing the per-day totals gives the sum over the logs of the whole window:
      every log of the user in the window is counted on exactly one day. */
  lemma {:induction false} DaysSumToWindow(logs: seq<ProteinLog>, userId: int, goal: int, first: int, n: nat)
    ensures SumBy(Days(logs, userId, goal, first, n), DayProtein) == SumBy(Filter(logs, InDays(userId, first, first + n)), Amount)
  {
    if n == 0 {
      FilterNone(logs, InDays(userId, first, first));
    } else {
      var m := n - 1;
      var last := first + m;
      var days := Days(logs, userId, goal, first, n);
      var prev := Days(logs, userId, goal, first, m);
      var whole := Filter(logs, InDays(userId, first, last + 1));
      var before := Filter(logs, InDays(userId, first, last));
      var onLast := Filter(logs, OnDay(userId, last));
      DaysSnoc(logs, userId, goal, first, n);
      SumByConcat(prev, [days[m]], DayProtein);
      assert A: SumBy(days, DayProtein) == SumBy(prev, DayProtein) + days[m].protein;
      DaysSumToWindow(logs, userId, goal, first, m);
      assert B: SumBy(prev, DayProtein) == SumBy(before, Amount);
      assert C: days[m].protein == SumBy(onLast, Amount);
      WindowSplits(logs, userId, first, n);
      SumByDisjointSplit(logs, Amount, InDays(userId, first, last + 1), InDays(userId, first, last), OnDay(userId, last));
      assert D: SumBy(whole, Amount) == SumBy(before, Amount) + SumBy(onLast, Amount);
      assert first + n == last + 1;
    }
  }

  /** The days of a window are those of the window one day shorter, then its last. */
  lemma DaysSnoc(logs: seq<ProteinLog>, userId: int, goal: int, first: int, n: nat)
    requires n > 0
    ensures Days(logs, userId, goal, first, n) == Days(logs, userId, goal, first, n - 1) + [Days(logs, userId, goal, first, n)[n - 1]]
  {
  }

  /** A window of `n` days is the window of its first `n - 1` days and its last day,
      which do not overlap. */
  lemma WindowSplits(logs: seq<ProteinLog>, userId: int, first: int, n: nat)
    requires n > 0
    ensures forall l | l in logs :: InDays(userId, first, first + n)(l) <==>
              InDays(userId, first, first + n - 1)(l) || OnDay(userId, first + n - 1)(l)
    ensures forall l | l in logs :: !(InDays(userId, first, first + n - 1)(l) && OnDay(userId, first + n - 1)(l))
  {
  }

  /** The last day of the weekly reply is today, with the total today's summary
      reports. */
  lemma WeeklyEndsWithToday(user: User, logs: seq<ProteinLog>, today: int)
    requires user.proteinGoal.Some?
    ensures Weekly(user, logs, today).value.days[DaysPerWeek - 1].day == today
    ensures Weekly(user, logs, today).value.days[DaysPerWeek - 1].protein == Today(user, logs, today).value.totalProtein
  {
  }
}
