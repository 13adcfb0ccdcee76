/** The `/users` router, for the signed-in user: reading and updating the profile
    and the usage statistics. */
module Users {
  import opened Wrappers
  import opened Seqs
  import opened Http
  import opened Models
  import ProteinLogs

  /** A field of a partial update: left out of the request body, or sent with a
      value (which for these nullable fields may be null). */
  datatype Field<T> = Unset | SetTo(value: T)

  /** The body of `PATCH /users/me`. */
  datatype UserUpdate = UserUpdate(
    fullName: Field<Option<string>>, location: Field<Option<string>>, proteinGoal: Field<Option<int>>)

  function Pick<T>(f: Field<T>, current: T): T {
    match f
    case Unset => current
    case SetTo(v) => v
  }

  /** Copies the fields sent in the request onto the user, as
      `model_dump(exclude_unset=True)` followed by `setattr` does. */
  function ApplyUpdate(u: User, upd: UserUpdate): (r: User)
    ensures r.id == u.id && r.email == u.email && r.hashedPassword == u.hashedPassword && r.isActive == u.isActive
    ensures upd.fullName.SetTo? ==> r.fullName == upd.fullName.value
    ensures upd.fullName.Unset? ==> r.fullName == u.fullName
    ensures upd.location.SetTo? ==> r.location == upd.location.value
    ensures upd.location.Unset? ==> r.location == u.location
    ensures upd.proteinGoal.SetTo? ==> r.proteinGoal == upd.proteinGoal.value
    ensures upd.proteinGoal.Unset? ==> r.proteinGoal == u.proteinGoal
  {
    u.(fullName := Pick(upd.fullName, u.fullName),
       location := Pick(upd.location, u.location),
       proteinGoal := Pick(upd.proteinGoal, u.proteinGoal))
  }

  /** Sending the same update twice changes nothing the second time. */
  lemma ApplyUpdateIdempotent(u: User, upd: UserUpdate)
    ensures ApplyUpdate(ApplyUpdate(u, upd), upd) == ApplyUpdate(u, upd)
  {
  }

  /** The later of two updates wins on every field it sends. */
  function Merge(first: UserUpdate, second: UserUpdate): UserUpdate {
    UserUpdate(
      if second.fullName.SetTo? then second.fullName else first.fullName,
      if second.location.SetTo? then second.location else first.location,
      if second.proteinGoal.SetTo? then second.proteinGoal else first.proteinGoal)
  }

  /** Two updates in a row act as their merge. */
  lemma ApplyUpdateCompose(u: User, first: UserUpdate, second: UserUpdate)
    ensures ApplyUpdate(ApplyUpdate(u, first), second) == ApplyUpdate(u, Merge(first, second))
  {
  }

  /** The `UserOut` response model: the goal is a required integer. */
  datatype UserOut = UserOut(
    id: int, email: string, fullName: Option<string>, location: Option<string>, proteinGoal: int, isActive: bool)

  /** Validating a user against `UserOut`: a NULL goal fails validation, which
      FastAPI turns into a server error. */
  function ToUserOut(u: User): (r: Result<UserOut, ApiError>)
    ensures r.Err? <==> u.proteinGoal.None?
    ensures r.Err? ==> r.error == Internal
    ensures r.Ok? ==> r.value.id == u.id && r.value.email == u.email && r.value.fullName == u.fullName
                      && r.value.location == u.location && Some(r.value.proteinGoal) == u.proteinGoal
                      && r.value.isActive == u.isActive
  {
    match u.proteinGoal
    case None => Err(Internal)
    case Some(g) => Ok(UserOut(u.id, u.email, u.fullName, u.location, g, u.isActive))
  }

  /** `GET /users/me`: the signed-in user's profile. */
  function GetProfile(u: User): (r: Result<UserOut, ApiError>)
    ensures r.Err? <==> u.proteinGoal.None?
    ensures r.Ok? ==> r.value == UserOut(u.id, u.email, u.fullName, u.location, u.proteinGoal.value, u.isActive)
  {
    ToUserOut(u)
  }

  /** `PATCH /users/me` on the table, for the user at index `i`: the row is updated
      and committed, then the reply is validated; a NULL goal leaves the row
      updated while the reply is a server error. */
  function UpdateProfile(users: seq<User>, i: nat, upd: UserUpdate): (r: (seq<User>, Result<UserOut, ApiError>))
    requires i < |users|
    ensures |r.0| == |users| && r.0[i] == ApplyUpdate(users[i], upd)
    ensures forall j | 0 <= j < |users| && j != i :: r.0[j] == users[j]
    ensures UsersTableValid(users) ==> UsersTableValid(r.0)
    ensures r.1.Err? <==> r.0[i].proteinGoal.None?
    ensures r.1.Ok? ==> r.1.value.id == users[i].id && Some(r.1.value.proteinGoal) == r.0[i].proteinGoal
    ensures r.1.Ok? ==> r.1.value == UserOut(r.0[i].id, r.0[i].email, r.0[i].fullName, r.0[i].location,
                                             r.0[i].proteinGoal.value, r.0[i].isActive)
  {
    var updated := ApplyUpdate(users[i], upd);
    var table := users[i := updated];
    (table, ToUserOut(updated))
  }

  /** A request that sends an explicit null goal is accepted and stored; from then on
      the profile, today's summary and the weekly summary all answer with a server
      error. */
  lemma NullGoalBreaksReplies(users: seq<User>, i: nat, upd: UserUpdate, logs: seq<ProteinLog>, today: int)
    requires i < |users|
    requires upd.proteinGoal == SetTo(None)
    ensures UpdateProfile(users, i, upd).1 == Err(Internal)
    ensures GetProfile(UpdateProfile(users, i, upd).0[i]) == Err(Internal)
    ensures ProteinLogs.Today(UpdateProfile(users, i, upd).0[i], logs, today) == Err(Internal)
    ensures ProteinLogs.Weekly(UpdateProfile(users, i, upd).0[i], logs, today) == Err(Internal)
  {
  }

  /** The reply of `GET /users/me/stats`. */
  datatype Stats = Stats(totalLogs: nat, weeklyProtein: real, daysLoggedThisWeek: nat, proteinGoal: Option<int>)

  const StatsWindowDays := 7

  /** The user's logs on or after the given day; a log dated in the future counts. */
  function Since(userId: int, first: int): ProteinLog -> bool {
    (l: ProteinLog) => l.userId == userId && DayOf(l.loggedAt) >= first
  }

  /** The distinct calendar days of a set of logs. */
  function DaysOf(logs: seq<ProteinLog>): set<int> {
    set l | l in logs :: DayOf(l.loggedAt)
  }

  /** A set of logs falls on no more days than it has logs, and on none only when
      it is empty. */
  lemma {:induction false} DaysOfBound(logs: seq<ProteinLog>)
    ensures |DaysOf(logs)| <= |logs|
    ensures |DaysOf(logs)| == 0 <==> |logs| == 0
  {
    if |logs| > 0 {
      var rest := logs[1..];
      DaysOfBound(rest);
      assert DaysOf(logs) == DaysOf(rest) + {DayOf(logs[0].loggedAt)} by {
        assert logs == [logs[0]] + rest;
      }
      assert DayOf(logs[0].loggedAt) in DaysOf(logs);
    }
  }

  /** `GET /users/me/stats`: the number of the user's logs, the protein and the
      number of distinct days logged from seven days ago on, and the goal as stored. */
  function UserStats(user: User, logs: seq<ProteinLog>, today: int): (r: Stats)
    ensures r.totalLogs == |Filter(logs, (l: ProteinLog) => l.userId == user.id)|
    ensures r.weeklyProtein == SumBy(Filter(logs, Since(user.id, today - StatsWindowDays)), ProteinLogs.Amount)
    ensures r.daysLoggedThisWeek
            == |set l | l in logs && Since(user.id, today - StatsWindowDays)(l) :: DayOf(l.loggedAt)|
    ensures r.daysLoggedThisWeek <= |Filter(logs, Since(user.id, today - StatsWindowDays))|
    ensures r.daysLoggedThisWeek == 0 <==> forall l | l in logs :: !Since(user.id, today - StatsWindowDays)(l)
    ensures r.proteinGoal == user.proteinGoal
  {
    var recent := Filter(logs, Since(user.id, today - StatsWindowDays));
    DaysOfBound(recent);
    assert DaysOf(recent)
        == set l | l in logs && Since(user.id, today - StatsWindowDays)(l) :: DayOf(l.loggedAt);
    Stats(|Filter(logs, (l: ProteinLog) => l.userId == user.id)|, SumBy(recent, ProteinLogs.Amount), |DaysOf(recent)|, user.proteinGoal)
  }

  /** When the user has no log dated after today, the statistics' window is the
      weekly summary's seven days plus the day before them, so its protein is the
      weekly total plus that day's. */
  lemma StatsWindowIsWeekPlusOneDay(user: User, logs: seq<ProteinLog>, today: int)
    requires user.proteinGoal.Some?
    requires forall l | l in logs && l.userId == user.id :: DayOf(l.loggedAt) <= today
    ensures UserStats(user, logs, today).weeklyProtein
            == ProteinLogs.Weekly(user, logs, today).value.totalWeekly + ProteinLogs.ProteinOn(logs, user.id, today - StatsWindowDays)
  {
    var first := today - StatsWindowDays;
    var week := ProteinLogs.Weekly(user, logs, today).value;
    var start := week.weekStart;
    assert start == first + 1;
    StatsWindowSplits(logs, user.id, today, start);
    SumByDisjointSplit(logs, ProteinLogs.Amount, Since(user.id, first),
                       ProteinLogs.InDays(user.id, start, start + ProteinLogs.DaysPerWeek),
                       ProteinLogs.OnDay(user.id, first));
  }

  /** With no log after today, a log is in the statistics' window exactly when it is
      in the week or on the day before it, and never in both. */
  lemma StatsWindowSplits(logs: seq<ProteinLog>, userId: int, today: int, start: int)
    requires start == today - StatsWindowDays + 1
    requires forall l | l in logs && l.userId == userId :: DayOf(l.loggedAt) <= today
    ensures forall l | l in logs :: Since(userId, today - StatsWindowDays)(l) <==>
              ProteinLogs.InDays(userId, start, start + ProteinLogs.DaysPerWeek)(l)
              || ProteinLogs.OnDay(userId, today - StatsWindowDays)(l)
    ensures forall l | l in logs :: !(ProteinLogs.InDays(userId, start, start + ProteinLogs.DaysPerWeek)(l)
              && ProteinLogs.OnDay(userId, today - StatsWindowDays)(l))
  {
  }
}
