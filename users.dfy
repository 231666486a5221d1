/** `UsersRepo`: signup, lookup, one-shot referral linking and balances. */
module UsersRepo {
  import opened Models
  import UserTasksRepo

  /** `INSERT INTO users (username) VALUES ($1) RETURNING ...`: the id comes
      from the id sequence, the referrer is NULL and `created_at` is now. */
  function Create(db: Db, username: string): (r: (Db, User))
    ensures r.1.id == db.nextId && r.1.username == username && r.1.referrerId.None?
    ensures r.1.id !in db.users ==> r.0.users == db.users[r.1.id := r.1]
    ensures r.0.nextId > db.nextId
    ensures r.0.tasks == db.tasks && r.0.userTasks == db.userTasks
  {
    var u := User(db.nextId, username, None, db.clock);
    (db.(users := db.users[u.id := u], nextId := db.nextId + 1, clock := db.clock + 1), u)
  }

  /** `SELECT ... FROM users WHERE id=$1`, no row being `NotFound`. */
  function GetByID(db: Db, id: int): (r: Result<User>)
    requires Valid(db)
    ensures r.Ok? <==> id in db.users
    ensures r.Ok? ==> r.value.id == id && r.value in db.users.Values
    ensures r.Err? ==> r.error == NotFound
  {
    if id in db.users then Ok(db.users[id]) else Err(NotFound)
  }

  /** A new user gets a fresh id and is found under it, exactly as created. */
  lemma CreateThenGet(db: Db, username: string)
    requires Valid(db)
    ensures var (db', u) := Create(db, username);
      && u.id !in db.users
      && Valid(db')
      && GetByID(db', u.id) == Ok(u)
      && (forall id :: id in db.users ==> GetByID(db', id) == GetByID(db, id))
  {
    var (db', u) := Create(db, username);
    assert u.id !in db.users;
    assert ReferrersWellFormed(db'.users) by {
      forall id | id in db'.users && db'.users[id].referrerId.Some?
        ensures db'.users[id].referrerId.value != id && db'.users[id].referrerId.value in db'.users
      {
        assert id in db.users;
      }
    }
  }

  /** `UsersRepo.SetReferrer`: self-referral is `Invalid`; an unknown referrer
      is `NotFound`; then `UPDATE users SET referrer_id=$2 WHERE id=$1 AND
      referrer_id IS NULL`, zero rows affected being `Conflict`. `None` is success. */
  function SetReferrer(db: Db, userId: int, referrerId: int): (r: (Db, Option<RepoError>))
    ensures r.1.None? <==>
      userId != referrerId && referrerId in db.users
      && userId in db.users && db.users[userId].referrerId.None?
    ensures r.1 == Some(Invalid) <==> userId == referrerId
    ensures r.1 == Some(NotFound) <==> userId != referrerId && referrerId !in db.users
    ensures r.1 == Some(Conflict) <==>
      userId != referrerId && referrerId in db.users
      && (userId !in db.users || db.users[userId].referrerId.Some?)
    ensures r.1.Some? ==> r.0 == db
    ensures r.1.None? ==>
      r.0 == db.(users := db.users[userId := db.users[userId].(referrerId := Some(referrerId))])
  {
    if userId == referrerId then (db, Some(Invalid))
    else if referrerId !in db.users then (db, Some(NotFound))
    else if userId in db.users && db.users[userId].referrerId.None? then
      (db.(users := db.users[userId := db.users[userId].(referrerId := Some(referrerId))]), None)
    else (db, Some(Conflict))
  }

  /** A successful link keeps the store invariant (no self-referral, the
      referrer exists) and changes nothing but the user's `referrer_id`. */
  lemma SetReferrerPreservesValid(db: Db, userId: int, referrerId: int)
    requires Valid(db)
    ensures var (db', e) := SetReferrer(db, userId, referrerId);
      && Valid(db')
      && db'.users.Keys == db.users.Keys
      && db'.tasks == db.tasks && db'.userTasks == db.userTasks
      && (forall id :: id in db.users && id != userId ==> db'.users[id] == db.users[id])
      && (e.None? ==> db'.users[userId] == db.users[userId].(referrerId := Some(referrerId)))
  {
    var (db', e) := SetReferrer(db, userId, referrerId);
    if e.None? {
      assert ReferrersWellFormed(db'.users) by {
        forall id | id in db'.users && db'.users[id].referrerId.Some?
          ensures db'.users[id].referrerId.value != id && db'.users[id].referrerId.value in db'.users
        {
          if id != userId {
            assert db'.users[id] == db.users[id];
          }
        }
      }
    }
  }

  /** One shot: once a call has linked a user, every later call for that user
      with an existing referrer other than itself is a `Conflict`, the same
      referrer included, and changes nothing. */
  lemma SetReferrerOnlyOnce(db: Db, userId: int, referrerId: int, other: int)
    requires SetReferrer(db, userId, referrerId).1.None?
    requires other != userId
    ensures var db1 := SetReferrer(db, userId, referrerId).0;
      other in db1.users ==> SetReferrer(db1, userId, other) == (db1, Some(Conflict))
    ensures var db1 := SetReferrer(db, userId, referrerId).0;
      SetReferrer(db1, userId, referrerId) == (db1, Some(Conflict))
  {
  }

  /** `UsersRepo.Balance`: `COALESCE(SUM(points_awarded), 0) ... WHERE user_id=$1`.
      No existence check on the user: an unknown id sums to 0. */
  function Balance(ledger: seq<UserTask>, userId: int): int
  {
    if ledger == [] then 0
    else
      (if ledger[0].userId == userId then ledger[0].pointsAwarded else 0)
      + Balance(ledger[1..], userId)
  }

  /** `COALESCE(..., 0)`: an id with no ledger rows has balance 0 -- a user
      without credits, or, given the foreign key on `user_tasks`, any unknown id. */
  lemma {:induction false} BalanceWithoutCredits(ledger: seq<UserTask>, userId: int)
    requires forall i :: 0 <= i < |ledger| ==> ledger[i].userId != userId
    ensures Balance(ledger, userId) == 0
  {
    if ledger != [] {
      BalanceWithoutCredits(ledger[1..], userId);
    }
  }

  /** Balance is non-negative: with non-negative rewards a balance is never negative. */
  lemma {:induction false} BalanceNonNegative(ledger: seq<UserTask>, userId: int)
    requires forall i :: 0 <= i < |ledger| ==> ledger[i].pointsAwarded >= 0
    ensures Balance(ledger, userId) >= 0
  {
    if ledger != [] {
      BalanceNonNegative(ledger[1..], userId);
    }
  }

  /** Sum of the awarded points of a list of credits. */
  function SumAwarded(credits: seq<UserTask>): int
  {
    if credits == [] then 0 else credits[0].pointsAwarded + SumAwarded(credits[1..])
  }

  lemma {:induction false} SumAwardedAppend(credits: seq<UserTask>, c: UserTask)
    ensures SumAwarded(credits + [c]) == SumAwarded(credits) + c.pointsAwarded
  {
    if credits != [] {
      assert (credits + [c])[1..] == credits[1..] + [c];
      SumAwardedAppend(credits[1..], c);
    }
  }

  /** Balance is the sum of the listed credits: the balance is the sum of the points of exactly the credits
      `ListCompleted` reports for the user, so the status page's balance and
      list always agree. */
  lemma {:induction false} BalanceIsSumOfCompleted(ledger: seq<UserTask>, userId: int)
    ensures Balance(ledger, userId) == SumAwarded(UserTasksRepo.ListCompleted(ledger, userId))
  {
    if ledger != [] {
      BalanceIsSumOfCompleted(ledger[1..], userId);
      if ledger[0].userId == userId {
        SumAwardedAppend(UserTasksRepo.ListCompleted(ledger[1..], userId), ledger[0]);
      }
    }
  }

  /** Appending a credit raises exactly its owner's balance, by the awarded points. */
  lemma {:induction false} BalanceAppend(ledger: seq<UserTask>, c: UserTask, userId: int)
    ensures Balance(ledger + [c], userId)
         == Balance(ledger, userId) + (if c.userId == userId then c.pointsAwarded else 0)
  {
    if ledger != [] {
      assert (ledger + [c])[1..] == ledger[1..] + [c];
      BalanceAppend(ledger[1..], c, userId);
    }
  }

  /** Crediting a task raises the user's balance by the task's points at the
      moment of the call, and leaves every other balance alone. */
  lemma CompleteTaskBalance(db: Db, userId: int, code: string, someone: int)
    ensures var (db', r) := UserTasksRepo.CompleteTask(db, userId, code);
      Balance(db'.userTasks, someone) == Balance(db.userTasks, someone)
        + (if r == Ok(true) && someone == userId then db.tasks[code].points else 0)
  {
    var (db', r) := UserTasksRepo.CompleteTask(db, userId, code);
    if r == Ok(true) {
      BalanceAppend(db.userTasks, UserTasksRepo.NewCredit(db, userId, code), someone);
    }
  }
}
