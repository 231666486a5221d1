/** `UserTasksRepo`: crediting a task exactly once, and listing a user's credits. */
module UserTasksRepo {
  import opened Models

  /** The `WHERE t.code=$2 AND t.active = TRUE` filter of the insert, and the
      fallback `SELECT 1 FROM tasks WHERE code=$1 AND active=TRUE`. */
  predicate ActiveTaskExists(tasks: map<string, Task>, code: string)
  {
    code in tasks && tasks[code].active
  }

  /** The completion the insert writes: the task's points at this moment,
      stamped with the current clock. */
  function NewCredit(db: Db, userId: int, code: string): (c: UserTask)
    requires code in db.tasks
    ensures c.userId == userId && c.taskId == db.tasks[code].id
    ensures c.pointsAwarded == db.tasks[code].points && c.completedAt == db.clock
  {
    UserTask(userId, db.tasks[code].id, db.tasks[code].points, db.clock)
  }

  /** `INSERT ... SELECT ... ON CONFLICT (user_id, task_id) DO NOTHING RETURNING ...`:
      `Some` with the new state when a row comes back, `None` when no row was inserted. */
  function TryInsert(db: Db, userId: int, code: string): (r: Option<Db>)
    ensures r.Some? <==>
      ActiveTaskExists(db.tasks, code) && !HasCompletion(db.userTasks, userId, db.tasks[code].id)
    ensures r.Some? ==>
      && r.value.userTasks == db.userTasks + [NewCredit(db, userId, code)]
      && r.value.users == db.users && r.value.tasks == db.tasks
      && r.value.nextId == db.nextId && r.value.clock > db.clock
  {
    if ActiveTaskExists(db.tasks, code) && !HasCompletion(db.userTasks, userId, db.tasks[code].id) then
      Some(db.(userTasks := db.userTasks + [NewCredit(db, userId, code)], clock := db.clock + 1))
    else
      None
  }

  /** `UserTasksRepo.CompleteTask`: `Ok(true)` when a credit was inserted;
      otherwise the fallback query decides between `Ok(false)` (an active
      task with that code exists, so the pair was already credited) and
      `Err(NotFound)`. Only a successful insert changes the store. */
  function CompleteTask(db: Db, userId: int, code: string): (r: (Db, Result<bool>))
    ensures r.1 == Ok(true) <==>
      ActiveTaskExists(db.tasks, code) && !HasCompletion(db.userTasks, userId, db.tasks[code].id)
    ensures r.1 == Ok(false) <==>
      ActiveTaskExists(db.tasks, code) && HasCompletion(db.userTasks, userId, db.tasks[code].id)
    ensures r.1 == Err(NotFound) <==> !ActiveTaskExists(db.tasks, code)
    ensures r.1 != Ok(true) ==> r.0 == db
    ensures r.1 == Ok(true) ==>
      && r.0.userTasks == db.userTasks + [NewCredit(db, userId, code)]
      && r.0.users == db.users && r.0.tasks == db.tasks
  {
    match TryInsert(db, userId, code)
    case Some(db') => (db', Ok(true))
    case None =>
      if ActiveTaskExists(db.tasks, code) then (db, Ok(false)) else (db, Err(NotFound))
  }

  /** Number of ledger rows for the pair (userId, taskId). */
  function PairCount(ledger: seq<UserTask>, userId: int, taskId: int): (n: nat)
    ensures n > 0 <==> HasCompletion(ledger, userId, taskId)
  {
    if ledger == [] then 0
    else
      PairCount(ledger[1..], userId, taskId)
      + (if ledger[0].userId == userId && ledger[0].taskId == taskId then 1 else 0)
  }

  lemma {:induction false} UniquePairsCount(ledger: seq<UserTask>, userId: int, taskId: int)
    requires UniquePairs(ledger)
    ensures PairCount(ledger, userId, taskId) <= 1
  {
    if ledger != [] {
      var tail := ledger[1..];
      assert UniquePairs(tail) by {
        forall i, j | 0 <= i < j < |tail|
          ensures (tail[i].userId, tail[i].taskId) != (tail[j].userId, tail[j].taskId)
        {
          assert tail[i] == ledger[i + 1] && tail[j] == ledger[j + 1];
        }
      }
      UniquePairsCount(tail, userId, taskId);
      if ledger[0].userId == userId && ledger[0].taskId == taskId {
        forall k | 0 <= k < |tail|
          ensures !(tail[k].userId == userId && tail[k].taskId == taskId)
        {
          assert ledger[k + 1] == tail[k];
        }
      }
    }
  }

  /** A successful insert keeps the store invariant: in particular the pair
      was absent, so pair uniqueness still holds, and the new stamp is the latest. */
  lemma CompleteTaskPreservesValid(db: Db, userId: int, code: string)
    requires Valid(db)
    ensures Valid(CompleteTask(db, userId, code).0)
  {
    var (db', r) := CompleteTask(db, userId, code);
    if r == Ok(true) {
      var s, c := db.userTasks, NewCredit(db, userId, code);
      assert db'.userTasks == s + [c];
      forall i, j | 0 <= i < j < |s + [c]|
        ensures ((s + [c])[i].userId, (s + [c])[i].taskId) != ((s + [c])[j].userId, (s + [c])[j].taskId)
      {
        if j == |s| {
          assert (s + [c])[i] == s[i];
        }
      }
    }
  }

  /** Exactly-once crediting: after a call that did not fail, the pair has
      exactly one row, whether this call inserted it or an earlier one did. */
  lemma CompleteTaskCreditsOnce(db: Db, userId: int, code: string)
    requires Valid(db)
    ensures var (db', r) := CompleteTask(db, userId, code);
      r.Ok? ==> PairCount(db'.userTasks, userId, db.tasks[code].id) == 1
  {
    var (db', r) := CompleteTask(db, userId, code);
    CompleteTaskPreservesValid(db, userId, code);
    if r.Ok? {
      var tid := db.tasks[code].id;
      if r.value {
        var n := |db.userTasks|;
        assert db'.userTasks[n] == NewCredit(db, userId, code);
        assert HasCompletion(db'.userTasks, userId, tid);
      }
      UniquePairsCount(db'.userTasks, userId, tid);
    }
  }

  /** Idempotence: a second identical call reports `Ok(false)` (or the same
      `NotFound`) and leaves the store as the first call left it. */
  lemma CompleteTaskIdempotent(db: Db, userId: int, code: string)
    ensures var (db1, r1) := CompleteTask(db, userId, code);
      var (db2, r2) := CompleteTask(db1, userId, code);
      && db2 == db1
      && r2 == (if r1.Err? then Err(NotFound) else Ok(false))
  {
    var (db1, r1) := CompleteTask(db, userId, code);
    if r1 == Ok(true) {
      var n := |db.userTasks|;
      assert db1.userTasks[n] == NewCredit(db, userId, code);
      assert HasCompletion(db1.userTasks, userId, db.tasks[code].id);
    }
  }

  /** `UserTasksRepo.ListCompleted`: the user's rows, newest first
      (`ORDER BY completed_at DESC`). */
  function ListCompleted(ledger: seq<UserTask>, userId: int): (r: seq<UserTask>)
    ensures forall c :: c in r <==> c in ledger && c.userId == userId
    ensures |r| <= |ledger|
    ensures Increasing(ledger) ==>
      forall i, j :: 0 <= i < j < |r| ==> r[i].completedAt > r[j].completedAt
  {
    if ledger == [] then []
    else
      var rest := ListCompleted(ledger[1..], userId);
      assert Increasing(ledger) ==> Increasing(ledger[1..]) && forall c :: c in ledger[1..] ==> ledger[0].completedAt < c.completedAt;
      if ledger[0].userId == userId then rest + [ledger[0]] else rest
  }
}
