/** The end-to-end walk through the ledger: two users, one daily task worth
    10 points, a repeated completion, a referral linked twice, and an
    unknown task code. */
module Scenario {
  import opened Models
  import UsersRepo
  import UserTasksRepo
  import Leaderboard

  const Daily: Task := Task(1, "DAILY", "Daily check-in", 10, true)

  /** The store right after the migrations: no users, one seeded task. */
  function Seeded(): (db: Db)
    ensures Valid(db) && db.users == map[] && db.userTasks == []
  {
    Db(map[], map["DAILY" := Daily], [], 0, 1)
  }

  const Alice: User := User(1, "alice", None, 0)
  const Bob: User := User(2, "bob", None, 1)

  /** After both signups. */
  function SignedUp(): Db
  {
    Db(map[1 := Alice, 2 := Bob], map["DAILY" := Daily], [], 2, 3)
  }

  /** After alice's one credit for the daily task. */
  function Credited(): Db
  {
    SignedUp().(userTasks := [UserTask(1, 1, 10, 2)], clock := 3)
  }

  lemma Signups()
    ensures UsersRepo.Create(Seeded(), "alice") == (Seeded().(users := map[1 := Alice], clock := 1, nextId := 2), Alice)
    ensures UsersRepo.Create(UsersRepo.Create(Seeded(), "alice").0, "bob") == (SignedUp(), Bob)
  {
  }

  /** The first completion credits 10 points; the second is a no-op reporting false. */
  lemma Completions()
    ensures UserTasksRepo.CompleteTask(SignedUp(), 1, "DAILY") == (Credited(), Ok(true))
    ensures UserTasksRepo.CompleteTask(Credited(), 1, "DAILY") == (Credited(), Ok(false))
  {
    assert UserTasksRepo.ActiveTaskExists(SignedUp().tasks, "DAILY");
    assert [] + [UserTask(1, 1, 10, 2)] == [UserTask(1, 1, 10, 2)];
    assert Credited().userTasks[0].userId == 1 && Credited().userTasks[0].taskId == 1;
  }

  lemma Balances()
    ensures UsersRepo.Balance(Credited().userTasks, 1) == 10
    ensures UsersRepo.Balance(Credited().userTasks, 2) == 0
  {
    assert Credited().userTasks[1..] == [];
  }

  lemma RowsOfCredited()
    ensures var s := [LeaderboardEntry(1, "alice", 10), LeaderboardEntry(2, "bob", 0)];
      Leaderboard.RowsOfUsers(Credited(), s) && Leaderboard.CoversUsers(Credited(), s)
  {
    var db := Credited();
    Balances();
    var s := [LeaderboardEntry(1, "alice", 10), LeaderboardEntry(2, "bob", 0)];
    assert s[0] == Leaderboard.EntryOf(db, 1);
    assert s[1] == Leaderboard.EntryOf(db, 2);
  }

  lemma RankingOfCredited()
    ensures Leaderboard.Ranking(Credited())
      == [LeaderboardEntry(1, "alice", 10), LeaderboardEntry(2, "bob", 0)]
  {
    RowsOfCredited();
    Leaderboard.RankingIsUnique(Credited(), [LeaderboardEntry(1, "alice", 10), LeaderboardEntry(2, "bob", 0)]);
  }

  /** alice leads with 10, bob follows with 0. */
  lemma Ranks()
    ensures Leaderboard.Leaderboard(Credited(), 10)
      == [LeaderboardEntry(1, "alice", 10), LeaderboardEntry(2, "bob", 0)]
  {
    RankingOfCredited();
    Leaderboard.LeaderboardAll(Credited(), 10);
  }

  /** bob names alice as referrer once; the repeat is a conflict; an unknown
      task code is not found. */
  lemma Referral()
    ensures var (db5, link) := UsersRepo.SetReferrer(Credited(), 2, 1);
      && link.None?
      && UsersRepo.SetReferrer(db5, 2, 1) == (db5, Some(Conflict))
      && UserTasksRepo.CompleteTask(db5, 2, "UNKNOWN") == (db5, Err(NotFound))
  {
  }

  /** The whole walk, chained through the repository calls. */
  lemma DailyScenario()
    ensures var (db1, a) := UsersRepo.Create(Seeded(), "alice");
      var (db2, b) := UsersRepo.Create(db1, "bob");
      var (db3, first) := UserTasksRepo.CompleteTask(db2, a.id, "DAILY");
      var (db4, again) := UserTasksRepo.CompleteTask(db3, a.id, "DAILY");
      var (db5, link) := UsersRepo.SetReferrer(db4, b.id, a.id);
      var (db6, relink) := UsersRepo.SetReferrer(db5, b.id, a.id);
      && a.id == 1 && b.id == 2
      && first == Ok(true) && again == Ok(false)
      && UsersRepo.Balance(db4.userTasks, a.id) == 10
      && UsersRepo.Balance(db4.userTasks, b.id) == 0
      && Leaderboard.Leaderboard(db4, 10)
         == [LeaderboardEntry(1, "alice", 10), LeaderboardEntry(2, "bob", 0)]
      && link.None? && relink == Some(Conflict)
      && UserTasksRepo.CompleteTask(db6, b.id, "UNKNOWN") == (db6, Err(NotFound))
  {
    Signups();
    Completions();
    Balances();
    Ranks();
    Referral();
  }
}
