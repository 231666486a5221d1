/** The store the repositories write to, updated in place. Each mutating
    repository call is a method whose effect is proved to be the transition
    function of its repository module, so every lemma about those functions
    holds of the store. */
module Store {
  import opened Models
  import UsersRepo
  import UserTasksRepo

  class Store {
    var users: map<int, User>
    var tasks: map<string, Task>
    var userTasks: seq<UserTask>
    var clock: nat
    var nextId: int

    /** The tables as one value. */
    function State(): Db
      reads this
    {
      Db(users, tasks, userTasks, clock, nextId)
    }

    ghost predicate Valid()
      reads this
    {
      Models.Valid(State())
    }

    /** An empty database after the migrations that seed the tasks. */
    constructor(seed: map<string, Task>)
      requires TasksWellFormed(seed)
      ensures State() == Db(map[], seed, [], 0, 1)
      ensures Valid()
    {
      users, tasks, userTasks, clock, nextId := map[], seed, [], 0, 1;
    }

    /** `UsersRepo.Create`: take the next id of the sequence, insert the row. */
    method Create(username: string) returns (u: User)
      requires Valid()
      modifies this
      ensures (State(), u) == UsersRepo.Create(old(State()), username)
      ensures Valid()
      ensures u.id !in old(users) && users[u.id] == u
    {
      ghost var before := State();
      UsersRepo.CreateThenGet(before, username);
      u := User(nextId, username, None, clock);
      nextId := nextId + 1;
      clock := clock + 1;
      users := users[u.id := u];
    }

    /** `UsersRepo.SetReferrer`: the self-referral check, the existence query
        on the referrer, then the conditional update whose rows-affected count
        decides between success and `Conflict`. */
    method SetReferrer(userId: int, referrerId: int) returns (err: Option<RepoError>)
      requires Valid()
      modifies this
      ensures (State(), err) == UsersRepo.SetReferrer(old(State()), userId, referrerId)
      ensures Valid()
    {
      UsersRepo.SetReferrerPreservesValid(State(), userId, referrerId);
      if userId == referrerId {
        return Some(Invalid);
      }
      if referrerId !in users {
        return Some(NotFound);
      }
      var rowsAffected := 0;
      if userId in users && users[userId].referrerId.None? {
        users := users[userId := users[userId].(referrerId := Some(referrerId))];
        rowsAffected := 1;
      }
      if rowsAffected == 0 {
        return Some(Conflict);
      }
      return None;
    }

    /** The `ON CONFLICT (user_id, task_id)` probe: scans the ledger for a
        row of the pair. */
    method HasPair(userId: int, taskId: int) returns (found: bool)
      ensures found <==> HasCompletion(userTasks, userId, taskId)
    {
      var i := 0;
      while i < |userTasks|
        invariant 0 <= i <= |userTasks|
        invariant forall k :: 0 <= k < i ==> !(userTasks[k].userId == userId && userTasks[k].taskId == taskId)
      {
        if userTasks[i].userId == userId && userTasks[i].taskId == taskId {
          return true;
        }
        i := i + 1;
      }
      return false;
    }

    /** `UserTasksRepo.CompleteTask`: the insert of the active task's points
        unless the pair is already credited; when nothing came back, the
        existence query on an active task decides between `Ok(false)` and
        `NotFound`. */
    method CompleteTask(userId: int, code: string) returns (r: Result<bool>)
      requires Valid()
      modifies this
      ensures (State(), r) == UserTasksRepo.CompleteTask(old(State()), userId, code)
      ensures Valid()
    {
      UserTasksRepo.CompleteTaskPreservesValid(State(), userId, code);
      var inserted := false;
      if code in tasks && tasks[code].active {
        var t := tasks[code];
        var taken := HasPair(userId, t.id);
        if !taken {
          userTasks := userTasks + [UserTask(userId, t.id, t.points, clock)];
          clock := clock + 1;
          inserted := true;
        }
      }
      if inserted {
        return Ok(true);
      }
      if code in tasks && tasks[code].active {
        return Ok(false);
      }
      return Err(NotFound);
    }
  }
}
