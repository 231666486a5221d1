/** The user handlers (`UsersHandler`): the guard cascade every handler runs
    (caller, path id, ownership, body), the repository call, and the mapping
    of its outcome to a status code and an error code. Request decoding is
    abstracted: a value that did not parse is `None`. */
module Handlers {
  import opened Models
  import UsersRepo
  import UserTasksRepo
  import Leaderboard

  const StatusOK: int := 200
  const StatusNoContent: int := 204
  const StatusBadRequest: int := 400
  const StatusUnauthorized: int := 401
  const StatusForbidden: int := 403
  const StatusNotFound: int := 404
  const StatusConflict: int := 409
  const StatusInternalServerError: int := 500

  /** The JSON written back: an `errorResp`, or the route's own payload. */
  datatype Body =
    | ErrorBody(message: string, code: string)
    | StatusBody(user: User, balance: int, completed: seq<UserTask>)
    | ItemsBody(items: seq<LeaderboardEntry>)
    | CompleteBody(newlyCompleted: bool)
    | NoBody

  datatype Reply = Reply(status: int, body: Body)

  function Error(status: int, message: string, code: string): Reply
  {
    Reply(status, ErrorBody(message, code))
  }

  /** The `limit` query parameter: absent (or empty), not an integer, or an integer. */
  datatype LimitParam = Absent | NotANumber | Number(value: int)

  /** `parseLimit`: the default when the parameter is missing or malformed,
      otherwise the value brought into [min, max]. */
  function ParseLimit(q: LimitParam, def: int, min: int, max: int): (r: int)
    ensures !q.Number? ==> r == def
    ensures q.Number? && min <= q.value <= max ==> r == q.value
    ensures q.Number? && min <= max ==> min <= r <= max
    ensures q.Number? && min <= max && r != q.value ==>
      (q.value < min && r == min) || (q.value > max && r == max)
  {
    match q
    case Absent => def
    case NotANumber => def
    case Number(v) =>
      if v < min then min
      else if v > max then max
      else v
  }

  /** Clamping is monotone: a larger requested limit never yields a shorter page. */
  lemma ParseLimitMonotone(v: int, w: int, def: int, min: int, max: int)
    requires v <= w && min <= max
    ensures ParseLimit(Number(v), def, min, max) <= ParseLimit(Number(w), def, min, max)
  {
  }

  /** Clamping is idempotent: feeding the result back changes nothing. */
  lemma ParseLimitIdempotent(q: LimitParam, def: int, min: int, max: int)
    requires min <= def <= max
    ensures ParseLimit(Number(ParseLimit(q, def, min, max)), def, min, max) == ParseLimit(q, def, min, max)
  {
  }

  /** The steps shared by the user routes: a caller from the auth middleware
      (401), a path id that parses (400 `bad_request`), and the caller being
      that user (403). `None` lets the request through. */
  function CheckCaller(caller: Option<int>, pathId: Option<int>): (r: Option<Reply>)
    ensures r.None? <==> caller.Some? && pathId.Some? && caller.value == pathId.value
    ensures r.Some? && r.value.status == StatusUnauthorized <==> caller.None?
    ensures r.Some? && r.value.status == StatusBadRequest <==> caller.Some? && pathId.None?
    ensures r.Some? && r.value.status == StatusForbidden <==>
      caller.Some? && pathId.Some? && caller.value != pathId.value
    ensures caller.None? ==> r == Some(Error(StatusUnauthorized, "unauthorized", "unauthorized"))
    ensures caller.Some? && pathId.None? ==>
      r == Some(Error(StatusBadRequest, "invalid user id", "bad_request"))
    ensures caller.Some? && pathId.Some? && caller.value != pathId.value ==>
      r == Some(Error(StatusForbidden, "forbidden", "forbidden"))
  {
    if caller.None? then Some(Error(StatusUnauthorized, "unauthorized", "unauthorized"))
    else if pathId.None? then Some(Error(StatusBadRequest, "invalid user id", "bad_request"))
    else if caller.value != pathId.value then Some(Error(StatusForbidden, "forbidden", "forbidden"))
    else None
  }

  /** `UsersHandler.Status`: the user, the balance and the credits, newest first. */
  function Status(db: Db, caller: Option<int>, pathId: Option<int>): (r: Reply)
    requires Valid(db)
    ensures r.status == StatusOK <==>
      CheckCaller(caller, pathId).None? && pathId.value in db.users
    ensures r.status == StatusNotFound <==>
      CheckCaller(caller, pathId).None? && pathId.value !in db.users
    ensures CheckCaller(caller, pathId).Some? ==> r == CheckCaller(caller, pathId).value
    ensures r.status == StatusNotFound ==> r == Error(StatusNotFound, "user not found", "not_found")
    ensures r.status == StatusOK ==>
      && r.body.StatusBody?
      && r.body.user == db.users[pathId.value]
      && r.body.balance == UsersRepo.SumAwarded(r.body.completed)
      && (forall c :: c in r.body.completed <==> c in db.userTasks && c.userId == pathId.value)
      && (forall i, j :: 0 <= i < j < |r.body.completed| ==>
            r.body.completed[i].completedAt > r.body.completed[j].completedAt)
  {
    match CheckCaller(caller, pathId)
    case Some(e) => e
    case None =>
      var id := pathId.value;
      match UsersRepo.GetByID(db, id)
      case Err(NotFound) => Error(StatusNotFound, "user not found", "not_found")
      case Err(_) => Error(StatusInternalServerError, "internal error", "internal")
      case Ok(u) =>
        var list := UserTasksRepo.ListCompleted(db.userTasks, id);
        UsersRepo.BalanceIsSumOfCompleted(db.userTasks, id);
        Reply(StatusOK, StatusBody(u, UsersRepo.Balance(db.userTasks, id), list))
  }

  /** `UsersHandler.Leaderboard`: the top of the ranking, the `limit` query
      parameter defaulting to 50 and clamped to [1, 100]. */
  function LeaderboardPage(db: Db, q: LimitParam): (r: Reply)
    ensures r.status == StatusOK && r.body.ItemsBody?
    ensures 1 <= |r.body.items| <= 100 || |r.body.items| == |db.users| < 1
    ensures |r.body.items| <= |db.users|
    ensures Leaderboard.StrictlySorted(r.body.items) && Leaderboard.OthersBehind(db, r.body.items)
    ensures q.Absent? ==> |r.body.items| == if |db.users| < 50 then |db.users| else 50
    ensures |r.body.items| ==
      if ParseLimit(q, 50, 1, 100) < |db.users| then ParseLimit(q, 50, 1, 100) else |db.users|
    ensures Leaderboard.RowsOfUsers(db, r.body.items)
  {
    var limit := ParseLimit(q, 50, 1, 100);
    Reply(StatusOK, ItemsBody(Leaderboard.Leaderboard(db, limit)))
  }

  /** `UsersHandler.CompleteTask`: the guard, a non-empty `task_code`
      (400 `bad_request`), then the repository call; `NotFound` is 404, and
      success reports whether this call credited the task. */
  function CompleteTask(db: Db, caller: Option<int>, pathId: Option<int>, taskCode: Option<string>): (r: (Db, Reply))
    ensures CheckCaller(caller, pathId).Some? ==> r == (db, CheckCaller(caller, pathId).value)
    ensures CheckCaller(caller, pathId).None? && (taskCode.None? || taskCode.value == "") ==>
      r == (db, Error(StatusBadRequest, "invalid request body", "bad_request"))
    ensures r.1.status == StatusOK <==>
      CheckCaller(caller, pathId).None? && taskCode.Some? && taskCode.value != ""
      && UserTasksRepo.ActiveTaskExists(db.tasks, taskCode.value)
    ensures r.1.status == StatusOK ==>
      r == (UserTasksRepo.CompleteTask(db, pathId.value, taskCode.value).0,
            Reply(StatusOK, CompleteBody(UserTasksRepo.CompleteTask(db, pathId.value, taskCode.value).1.value)))
    ensures r.1.status == StatusNotFound <==>
      CheckCaller(caller, pathId).None? && taskCode.Some? && taskCode.value != ""
      && !UserTasksRepo.ActiveTaskExists(db.tasks, taskCode.value)
    ensures r.1.status == StatusNotFound ==>
      r == (db, Error(StatusNotFound, "task not found or inactive", "not_found"))
    ensures r.1 != Reply(StatusOK, CompleteBody(true)) ==> r.0 == db
    ensures r.1.status != StatusInternalServerError
  {
    match CheckCaller(caller, pathId)
    case Some(e) => (db, e)
    case None =>
      if taskCode.None? || taskCode.value == "" then
        (db, Error(StatusBadRequest, "invalid request body", "bad_request"))
      else
        var (db', res) := UserTasksRepo.CompleteTask(db, pathId.value, taskCode.value);
        match res
        case Err(NotFound) => (db', Error(StatusNotFound, "task not found or inactive", "not_found"))
        case Err(_) => (db', Error(StatusInternalServerError, "internal error", "internal"))
        case Ok(newly) => (db', Reply(StatusOK, CompleteBody(newly)))
  }

  /** `UsersHandler.SetReferrer`: the guard, a positive `referrer_id`
      (400 `bad_request`), no self-referral (400 `invalid`), then the
      repository call with its errors mapped to 404, 409, 400 and 500, and
      204 on success. */
  function SetReferrer(db: Db, caller: Option<int>, pathId: Option<int>, referrerId: Option<int>): (r: (Db, Reply))
    ensures CheckCaller(caller, pathId).Some? ==> r == (db, CheckCaller(caller, pathId).value)
    ensures CheckCaller(caller, pathId).None? && (referrerId.None? || referrerId.value <= 0) ==>
      r == (db, Error(StatusBadRequest, "invalid request body", "bad_request"))
    ensures (CheckCaller(caller, pathId).None? && referrerId.Some? && referrerId.value > 0
             && referrerId.value == pathId.value) ==>
      r == (db, Error(StatusBadRequest, "cannot refer self", "invalid"))
    ensures r.1.status == StatusNoContent <==>
      && CheckCaller(caller, pathId).None? && referrerId.Some? && referrerId.value > 0
      && referrerId.value != pathId.value && referrerId.value in db.users
      && pathId.value in db.users && db.users[pathId.value].referrerId.None?
    ensures r.1.status == StatusNotFound <==>
      && CheckCaller(caller, pathId).None? && referrerId.Some? && referrerId.value > 0
      && referrerId.value != pathId.value && referrerId.value !in db.users
    ensures r.1.status == StatusConflict <==>
      && CheckCaller(caller, pathId).None? && referrerId.Some? && referrerId.value > 0
      && referrerId.value != pathId.value && referrerId.value in db.users
      && (pathId.value !in db.users || db.users[pathId.value].referrerId.Some?)
    ensures r.1.status == StatusNotFound ==> r.1 == Error(StatusNotFound, "referrer not found", "not_found")
    ensures r.1.status == StatusConflict ==> r.1 == Error(StatusConflict, "referrer already set", "conflict")
    ensures r.1.status != StatusNoContent ==> r.0 == db
    ensures r.1.status == StatusNoContent ==>
      r.0 == UsersRepo.SetReferrer(db, pathId.value, referrerId.value).0 && r.1.body.NoBody?
    ensures r.1.status != StatusInternalServerError
  {
    match CheckCaller(caller, pathId)
    case Some(e) => (db, e)
    case None =>
      if referrerId.None? || referrerId.value <= 0 then
        (db, Error(StatusBadRequest, "invalid request body", "bad_request"))
      else if referrerId.value == pathId.value then
        (db, Error(StatusBadRequest, "cannot refer self", "invalid"))
      else
        var (db', err) := UsersRepo.SetReferrer(db, pathId.value, referrerId.value);
        match err
        case None => (db', Reply(StatusNoContent, NoBody))
        case Some(NotFound) => (db', Error(StatusNotFound, "referrer not found", "not_found"))
        case Some(Conflict) => (db', Error(StatusConflict, "referrer already set", "conflict"))
        case Some(Invalid) => (db', Error(StatusBadRequest, "invalid referrer", "invalid"))
        case Some(Internal) => (db', Error(StatusInternalServerError, "internal error", "internal"))
  }

  /** Ownership is decided before the store is read: a request on another
      user's id gets the same 403 whatever the store holds, and changes nothing. */
  lemma ForbiddenIgnoresStore(db: Db, other: Db, caller: int, pathId: int, code: Option<string>, ref: Option<int>)
    requires Valid(db) && Valid(other) && caller != pathId
    ensures Status(db, Some(caller), Some(pathId)) == Status(other, Some(caller), Some(pathId))
      == Error(StatusForbidden, "forbidden", "forbidden")
    ensures CompleteTask(db, Some(caller), Some(pathId), code) == (db, Error(StatusForbidden, "forbidden", "forbidden"))
    ensures SetReferrer(db, Some(caller), Some(pathId), ref) == (db, Error(StatusForbidden, "forbidden", "forbidden"))
  {
  }

  /** Completing the same task twice over HTTP: the second answer is 200 with
      `newly_completed` false and the store is left as the first call left it. */
  lemma CompleteTaskTwice(db: Db, id: int, code: string)
    requires code != "" && UserTasksRepo.ActiveTaskExists(db.tasks, code)
    ensures var (db1, r1) := CompleteTask(db, Some(id), Some(id), Some(code));
      var (db2, r2) := CompleteTask(db1, Some(id), Some(id), Some(code));
      r1.status == StatusOK && r2 == Reply(StatusOK, CompleteBody(false)) && db2 == db1
  {
    UserTasksRepo.CompleteTaskIdempotent(db, id, code);
  }
}
