/** Sequences of repository calls: what holds after any number of signups,
    referral links and task completions, applied one at a time. */
module History {
  import opened Models
  import UsersRepo
  import UserTasksRepo

  /** The repository calls that change the store. */
  datatype Op =
    | Signup(username: string)
    | LinkReferrer(userId: int, referrerId: int)
    | Complete(userId: int, code: string)

  function Apply(db: Db, op: Op): Db
  {
    match op
    case Signup(name) => UsersRepo.Create(db, name).0
    case LinkReferrer(u, r) => UsersRepo.SetReferrer(db, u, r).0
    case Complete(u, c) => UserTasksRepo.CompleteTask(db, u, c).0
  }

  function Run(db: Db, ops: seq<Op>): Db
    decreases |ops|
  {
    if ops == [] then db else Run(Apply(db, ops[0]), ops[1..])
  }

  /** What a single call never undoes: tasks are read-only, the ledger only
      grows at its end (a credit and its `pointsAwarded` are never rewritten),
      users are never removed or renamed, and a set referrer stays as it is. */
  ghost predicate Keeps(db: Db, db': Db)
  {
    && db'.tasks == db.tasks
    && db.userTasks <= db'.userTasks
    && (forall id :: id in db.users ==>
          && id in db'.users
          && db'.users[id].username == db.users[id].username
          && (db.users[id].referrerId.Some? ==> db'.users[id].referrerId == db.users[id].referrerId))
  }

  lemma ApplyKeeps(db: Db, op: Op)
    requires Valid(db)
    ensures Valid(Apply(db, op)) && Keeps(db, Apply(db, op))
  {
    match op
    case Signup(name) =>
      UsersRepo.CreateThenGet(db, name);
    case LinkReferrer(u, r) =>
      UsersRepo.SetReferrerPreservesValid(db, u, r);
    case Complete(u, c) =>
      UserTasksRepo.CompleteTaskPreservesValid(db, u, c);
  }

  lemma KeepsTransitive(a: Db, b: Db, c: Db)
    requires Keeps(a, b) && Keeps(b, c)
    ensures Keeps(a, c)
  {
  }

  /** Uniqueness, referrer immutability and credit permanence over any
      history: the invariant holds after every run, the ledger of the start
      is a prefix of the ledger at the end, and no referrer that was set has
      changed. */
  lemma {:induction false} RunKeeps(db: Db, ops: seq<Op>)
    requires Valid(db)
    ensures Valid(Run(db, ops)) && Keeps(db, Run(db, ops))
    decreases |ops|
  {
    if ops != [] {
      var next := Apply(db, ops[0]);
      ApplyKeeps(db, ops[0]);
      RunKeeps(next, ops[1..]);
      KeepsTransitive(db, next, Run(next, ops[1..]));
    }
  }

  /** A credit, once written, keeps its points for good: later calls cannot
      change it, whatever they are. */
  lemma CreditIsPermanent(db: Db, ops: seq<Op>, i: nat)
    requires Valid(db) && i < |db.userTasks|
    ensures i < |Run(db, ops).userTasks| && Run(db, ops).userTasks[i] == db.userTasks[i]
  {
    RunKeeps(db, ops);
  }

  /** Points snapshot: the credit keeps the task's points of the moment
      it was written. An edit of the task's points in the tasks table after
      the credit moves neither the credit nor any balance. */
  lemma PointsAreSnapshot(db: Db, userId: int, code: string, newPoints: int, someone: int)
    requires UserTasksRepo.CompleteTask(db, userId, code).1 == Ok(true)
    ensures var db1 := UserTasksRepo.CompleteTask(db, userId, code).0;
      var edited := db1.(tasks := db1.tasks[code := db1.tasks[code].(points := newPoints)]);
      && edited.userTasks[|db.userTasks|].pointsAwarded == db.tasks[code].points
      && UsersRepo.Balance(edited.userTasks, someone)
         == UsersRepo.Balance(db.userTasks, someone) + (if someone == userId then db.tasks[code].points else 0)
  {
    UsersRepo.CompleteTaskBalance(db, userId, code, someone);
  }

  /** The same completion request issued n times in a row. */
  function CompleteRepeatedly(db: Db, userId: int, code: string, n: nat): (r: (Db, seq<Result<bool>>))
    ensures |r.1| == n
    decreases n
  {
    if n == 0 then (db, [])
    else
      var (db1, first) := UserTasksRepo.CompleteTask(db, userId, code);
      var (dbn, rest) := CompleteRepeatedly(db1, userId, code, n - 1);
      (dbn, [first] + rest)
  }

  /** Exactly-once crediting over repeated requests: the first call decides;
      every later call answers `Ok(false)` (or the same `NotFound`) and changes
      nothing, so at most one call reports a new credit and the store ends as
      the first call left it. */
  lemma {:induction false} RepeatedCompletion(db: Db, userId: int, code: string, n: nat)
    requires n >= 1
    ensures var (dbn, rs) := CompleteRepeatedly(db, userId, code, n);
      && dbn == UserTasksRepo.CompleteTask(db, userId, code).0
      && rs[0] == UserTasksRepo.CompleteTask(db, userId, code).1
      && forall i :: 1 <= i < n ==> rs[i] == (if rs[0].Err? then Err(NotFound) else Ok(false))
    decreases n
  {
    var (db1, first) := UserTasksRepo.CompleteTask(db, userId, code);
    UserTasksRepo.CompleteTaskIdempotent(db, userId, code);
    if n > 1 {
      RepeatedCompletion(db1, userId, code, n - 1);
      var (dbn, rest) := CompleteRepeatedly(db1, userId, code, n - 1);
      assert rest[0] == (if first.Err? then Err(NotFound) else Ok(false));
      var rs := [first] + rest;
      forall i | 1 <= i < n ensures rs[i] == (if first.Err? then Err(NotFound) else Ok(false)) {
        assert rs[i] == rest[i - 1];
      }
    }
  }
}
