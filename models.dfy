/** Records of the reward ledger and the tables that hold them.
    The tables stand for the PostgreSQL state behind the repositories:
    `users`, `tasks` and `user_tasks`. */
module Models {

  datatype Option<T> = None | Some(value: T)

  /** The repository's sentinel errors, plus `Internal` for any other
      storage error, which the handlers map to 500. */
  datatype RepoError = NotFound | Conflict | Invalid | Internal

  datatype Result<T> = Ok(value: T) | Err(error: RepoError)

  /** A row of `users`; `createdAt` is an abstract timestamp. */
  datatype User = User(id: int, username: string, referrerId: Option<int>, createdAt: nat)

  /** A row of `tasks`. */
  datatype Task = Task(id: int, code: string, name: string, points: int, active: bool)

  /** A row of `user_tasks`: one credit of `pointsAwarded` to a user for a task. */
  datatype UserTask = UserTask(userId: int, taskId: int, pointsAwarded: int, completedAt: nat)

  /** One row of the leaderboard query. */
  datatype LeaderboardEntry = LeaderboardEntry(userId: int, username: string, balance: int)

  /** The whole store: users by id, tasks by their unique code, the ledger of
      completions in insertion order, the clock that stamps `created_at` and
      `completed_at`, and the next value of the users' id sequence. */
  datatype Db = Db(
    users: map<int, User>,
    tasks: map<string, Task>,
    userTasks: seq<UserTask>,
    clock: nat,
    nextId: int)

  /** True iff a completion for the pair (userId, taskId) is in the ledger. */
  predicate HasCompletion(ledger: seq<UserTask>, userId: int, taskId: int)
  {
    exists i :: 0 <= i < |ledger| && ledger[i].userId == userId && ledger[i].taskId == taskId
  }

  /** Pair uniqueness: at most one completion per (user, task) pair. */
  ghost predicate UniquePairs(ledger: seq<UserTask>)
  {
    forall i, j :: 0 <= i < j < |ledger| ==>
      (ledger[i].userId, ledger[i].taskId) != (ledger[j].userId, ledger[j].taskId)
  }

  /** Completion timestamps strictly increase along the ledger. */
  ghost predicate Increasing(ledger: seq<UserTask>)
  {
    forall i, j :: 0 <= i < j < |ledger| ==> ledger[i].completedAt < ledger[j].completedAt
  }

  /** The ledger is in insertion order and every stamp lies before `clock`. */
  ghost predicate Chronological(ledger: seq<UserTask>, clock: nat)
  {
    && Increasing(ledger)
    && (forall i :: 0 <= i < |ledger| ==> ledger[i].completedAt < clock)
  }

  /** Referrers well formed: no user refers to itself, and every referrer exists. */
  ghost predicate ReferrersWellFormed(users: map<int, User>)
  {
    forall id :: id in users && users[id].referrerId.Some? ==>
      users[id].referrerId.value != id && users[id].referrerId.value in users
  }

  /** Seeded tasks: stored under their own code, with non-negative rewards. */
  ghost predicate TasksWellFormed(tasks: map<string, Task>)
  {
    forall c :: c in tasks ==> tasks[c].code == c && tasks[c].points >= 0
  }

  /** The invariant every repository call keeps. */
  ghost predicate Valid(db: Db)
  {
    && db.nextId >= 1
    && (forall id :: id in db.users ==> db.users[id].id == id && 1 <= id < db.nextId)
    && ReferrersWellFormed(db.users)
    && TasksWellFormed(db.tasks)
    && UniquePairs(db.userTasks)
    && Chronological(db.userTasks, db.clock)
    && (forall i :: 0 <= i < |db.userTasks| ==> db.userTasks[i].pointsAwarded >= 0)
  }
}
