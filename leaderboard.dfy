/** `UsersRepo.Leaderboard`: every user with their balance (a left join, so
    users without credits rank with 0), ordered by balance descending and then
    id ascending, cut to the first `limit` rows. */
module Leaderboard {
  import opened Models
  import UsersRepo

  /** `ORDER BY balance DESC, u.id ASC`: a strictly ranks before b. */
  predicate Ahead(a: LeaderboardEntry, b: LeaderboardEntry)
  {
    a.balance > b.balance || (a.balance == b.balance && a.userId < b.userId)
  }

  predicate StrictlySorted(s: seq<LeaderboardEntry>)
  {
    forall i, j :: 0 <= i < j < |s| ==> Ahead(s[i], s[j])
  }

  /** The row of the grouped query for one user. */
  function EntryOf(db: Db, id: int): (e: LeaderboardEntry)
    requires id in db.users
  {
    LeaderboardEntry(id, db.users[id].username, UsersRepo.Balance(db.userTasks, id))
  }

  /** Rows of the grouped query, keyed by user id, before ordering. */
  predicate Keyed(rows: map<int, LeaderboardEntry>)
  {
    forall id :: id in rows ==> rows[id].userId == id
  }

  /** `FROM users u LEFT JOIN user_tasks ut ... GROUP BY u.id`: one row per user. */
  function Rows(db: Db): (rows: map<int, LeaderboardEntry>)
    ensures rows.Keys == db.users.Keys && Keyed(rows)
    ensures forall id :: id in rows ==> rows[id] == EntryOf(db, id)
  {
    map id | id in db.users :: EntryOf(db, id)
  }

  /** A set is empty or has an element. */
  lemma EmptyOrElement(s: set<int>)
    ensures s == {} || exists k :: k in s
  {
    if forall k :: k !in s {
      assert s == {};
    }
  }

  /** Among non-empty rows with distinct ids, one ranks ahead of all the others. */
  lemma {:induction false} TopExists(rows: map<int, LeaderboardEntry>)
    requires rows.Keys != {} && Keyed(rows)
    ensures exists t :: t in rows && forall x :: x in rows && x != t ==> Ahead(rows[t], rows[x])
    decreases rows.Keys
  {
    EmptyOrElement(rows.Keys);
    var y :| y in rows.Keys;
    var rest := rows - {y};
    if rest.Keys != {} {
      TopExists(rest);
      var t :| t in rest && forall x :: x in rest && x != t ==> Ahead(rest[t], rest[x]);
      assert rows[t] == rest[t];
      if !Ahead(rows[t], rows[y]) {
        assert Ahead(rows[y], rows[t]);
        forall x | x in rows && x != y ensures Ahead(rows[y], rows[x]) {
          if x != t {
            assert x in rest && rows[x] == rest[x];
            assert Ahead(rows[t], rows[x]);
          }
        }
      } else {
        forall x | x in rows && x != t ensures Ahead(rows[t], rows[x]) {
          if x != y {
            assert x in rest && rows[x] == rest[x];
          }
        }
      }
    } else {
      assert forall x :: x in rows && x != y ==> x in rest;
    }
  }

  /** The row that ranks ahead of all the others (unique, since `Ahead` is
      a strict total order on rows with distinct ids). */
  function Top(rows: map<int, LeaderboardEntry>): (t: int)
    requires rows.Keys != {} && Keyed(rows)
    ensures t in rows && forall x :: x in rows && x != t ==> Ahead(rows[t], rows[x])
  {
    TopExists(rows);
    var t :| t in rows && forall x :: x in rows && x != t ==> Ahead(rows[t], rows[x]);
    t
  }

  /** `r` lists exactly the rows, each once, in rank order. */
  ghost predicate RanksExactly(rows: map<int, LeaderboardEntry>, r: seq<LeaderboardEntry>)
  {
    && |r| == |rows.Keys|
    && (forall i :: 0 <= i < |r| ==> r[i].userId in rows && r[i] == rows[r[i].userId])
    && (forall id :: id in rows ==> exists i :: 0 <= i < |r| && r[i].userId == id)
    && StrictlySorted(r)
  }

  /** Putting the top row in front of a ranking of the other rows ranks them all. */
  lemma RankedStep(rows: map<int, LeaderboardEntry>, t: int, rest: seq<LeaderboardEntry>)
    requires Keyed(rows) && t in rows
    requires forall x :: x in rows && x != t ==> Ahead(rows[t], rows[x])
    requires RanksExactly(rows - {t}, rest)
    ensures RanksExactly(rows, [rows[t]] + rest)
  {
    var others := rows - {t};
    var r := [rows[t]] + rest;
    assert others.Keys == rows.Keys - {t};
    forall i | 0 <= i < |r|
      ensures r[i].userId in rows && r[i] == rows[r[i].userId]
    {
      if i > 0 {
        assert r[i] == rest[i - 1];
      }
    }
    forall id | id in rows
      ensures exists i :: 0 <= i < |r| && r[i].userId == id
    {
      if id == t {
        assert r[0].userId == id;
      } else {
        assert id in others;
        var k :| 0 <= k < |rest| && rest[k].userId == id;
        assert r[k + 1] == rest[k];
      }
    }
    forall i, j | 0 <= i < j < |r|
      ensures Ahead(r[i], r[j])
    {
      assert r[j] == rest[j - 1];
      if i > 0 {
        assert r[i] == rest[i - 1];
      } else {
        assert rest[j - 1].userId in others;
      }
    }
  }

  /** The rows in rank order, built by repeatedly taking the top one. */
  function Ranked(rows: map<int, LeaderboardEntry>): (r: seq<LeaderboardEntry>)
    requires Keyed(rows)
    ensures RanksExactly(rows, r)
    decreases rows.Keys
  {
    if rows.Keys == {} then
      []
    else
      var t := Top(rows);
      assert (rows - {t}).Keys < rows.Keys;
      var rest := Ranked(rows - {t});
      RankedStep(rows, t, rest);
      [rows[t]] + rest
  }

  /** Every row of `r` is a user of the store with that user's balance. */
  ghost predicate RowsOfUsers(db: Db, r: seq<LeaderboardEntry>)
  {
    forall i :: 0 <= i < |r| ==> r[i].userId in db.users && r[i] == EntryOf(db, r[i].userId)
  }

  /** Every user missing from `r` ranks behind every row of `r`. */
  ghost predicate OthersBehind(db: Db, r: seq<LeaderboardEntry>)
  {
    forall id :: id in db.users && (forall i :: 0 <= i < |r| ==> r[i].userId != id) ==>
      forall i :: 0 <= i < |r| ==> Ahead(r[i], EntryOf(db, id))
  }

  /** Every user of the store has a row in `r`. */
  ghost predicate CoversUsers(db: Db, r: seq<LeaderboardEntry>)
  {
    forall id :: id in db.users ==> exists i :: 0 <= i < |r| && r[i].userId == id
  }

  /** The full ranking: every user exactly once, with their balance, in rank order. */
  function Ranking(db: Db): (r: seq<LeaderboardEntry>)
    ensures |r| == |db.users|
    ensures RowsOfUsers(db, r) && CoversUsers(db, r)
    ensures forall i, j :: 0 <= i < j < |r| ==> r[i].userId != r[j].userId
    ensures StrictlySorted(r)
  {
    Ranked(Rows(db))
  }

  /** A prefix of a sorted list is sorted. */
  lemma PrefixSorted(all: seq<LeaderboardEntry>, n: nat)
    requires StrictlySorted(all) && n <= |all|
    ensures StrictlySorted(all[..n])
  {
    var r := all[..n];
    forall i, j | 0 <= i < j < n ensures Ahead(r[i], r[j]) {
      assert r[i] == all[i] && r[j] == all[j];
    }
  }

  /** The first n rows of the ranking are users with their balances. */
  lemma RankingPrefixRows(db: Db, n: nat)
    requires n <= |db.users|
    ensures RowsOfUsers(db, Ranking(db)[..n])
  {
    var all := Ranking(db);
    var r := all[..n];
    forall i | 0 <= i < n ensures r[i].userId in db.users && r[i] == EntryOf(db, r[i].userId) {
      assert r[i] == all[i];
    }
  }

  /** Any user outside the first n rows of the ranking ranks behind all of them. */
  lemma RankingPrefixTop(db: Db, n: nat)
    requires n <= |db.users|
    ensures OthersBehind(db, Ranking(db)[..n])
  {
    var all := Ranking(db);
    var r := all[..n];
    forall id | id in db.users && (forall i :: 0 <= i < |r| ==> r[i].userId != id)
      ensures forall i :: 0 <= i < |r| ==> Ahead(r[i], EntryOf(db, id))
    {
      var k :| 0 <= k < |all| && all[k].userId == id;
      forall i | 0 <= i < n ensures all[i].userId != id {
        assert r[i] == all[i];
      }
      assert k >= n;
      forall i | 0 <= i < n ensures Ahead(r[i], EntryOf(db, id)) {
        assert r[i] == all[i] && all[k] == EntryOf(db, id);
      }
    }
  }

  /** `LIMIT $1`: the first `limit` rows of the ranking. Its length is
      min(limit, number of users), it is sorted, each row is a user with their
      balance, and every user it leaves out ranks behind every user it lists. */
  function Leaderboard(db: Db, limit: nat): (r: seq<LeaderboardEntry>)
    ensures |r| == if limit < |db.users| then limit else |db.users|
    ensures RowsOfUsers(db, r)
    ensures StrictlySorted(r)
    ensures OthersBehind(db, r)
  {
    var all := Ranking(db);
    var n := if limit < |all| then limit else |all|;
    PrefixSorted(all, n);
    RankingPrefixRows(db, n);
    RankingPrefixTop(db, n);
    all[..n]
  }

  /** Two strictly sorted lists with the same entries are the same list. */
  lemma {:induction false} StrictlySortedUnique(a: seq<LeaderboardEntry>, b: seq<LeaderboardEntry>)
    requires StrictlySorted(a) && StrictlySorted(b)
    requires forall e :: e in a <==> e in b
    ensures a == b
  {
    if a == [] {
      assert forall i :: 0 <= i < |b| ==> b[i] in a;
    } else {
      assert a[0] in a && b != [] && b[0] in b;
      var k :| 0 <= k < |b| && b[k] == a[0];
      var j :| 0 <= j < |a| && a[j] == b[0];
      assert a[0] == b[0];
      forall e ensures e in a[1..] <==> e in b[1..] {
        if e in a[1..] {
          var i :| 1 <= i < |a| && a[i] == e;
          assert Ahead(a[0], a[i]);
          assert e in a && e in b;
          var m :| 0 <= m < |b| && b[m] == e;
          assert m != 0 && b[1..][m - 1] == e;
        }
        if e in b[1..] {
          var i :| 1 <= i < |b| && b[i] == e;
          assert Ahead(b[0], b[i]);
          assert e in b && e in a;
          var m :| 0 <= m < |a| && a[m] == e;
          assert m != 0 && a[1..][m - 1] == e;
        }
      }
      StrictlySortedUnique(a[1..], b[1..]);
      assert a == [a[0]] + a[1..] && b == [b[0]] + b[1..];
    }
  }

  /** A row of `a` for some user is also in any `b` that covers all users
      with their balances. */
  lemma RowsContained(db: Db, a: seq<LeaderboardEntry>, b: seq<LeaderboardEntry>)
    requires RowsOfUsers(db, a) && RowsOfUsers(db, b) && CoversUsers(db, b)
    ensures forall e :: e in a ==> e in b
  {
    forall e | e in a ensures e in b {
      var i :| 0 <= i < |a| && a[i] == e;
      assert e.userId in db.users;
      var k :| 0 <= k < |b| && b[k].userId == e.userId;
      assert b[k] == EntryOf(db, e.userId) == e;
    }
  }

  /** Determinism: any list that holds each user with their balance, in rank
      order, is the ranking. So the order depends only on the store, and a
      repeated query on an unchanged store returns the same rows. */
  lemma RankingIsUnique(db: Db, s: seq<LeaderboardEntry>)
    requires StrictlySorted(s) && RowsOfUsers(db, s) && CoversUsers(db, s)
    ensures s == Ranking(db)
  {
    var r := Ranking(db);
    RowsContained(db, s, r);
    RowsContained(db, r, s);
    StrictlySortedUnique(s, r);
  }

  /** Outer-join semantics: a user without credits still ranks, with balance 0. */
  lemma IdleUserRanksWithZero(db: Db, id: int)
    requires id in db.users
    requires forall i :: 0 <= i < |db.userTasks| ==> db.userTasks[i].userId != id
    ensures exists i :: 0 <= i < |Ranking(db)| && Ranking(db)[i] == LeaderboardEntry(id, db.users[id].username, 0)
  {
    var r := Ranking(db);
    var k :| 0 <= k < |r| && r[k].userId == id;
    UsersRepo.BalanceWithoutCredits(db.userTasks, id);
    assert r[k] == EntryOf(db, id);
  }

  /** A limit that reaches every user returns the whole ranking. */
  lemma LeaderboardAll(db: Db, limit: nat)
    requires limit >= |db.users|
    ensures Leaderboard(db, limit) == Ranking(db)
  {
  }

  /** Raising the limit only extends the list: a shorter leaderboard is a
      prefix of a longer one on the same store. */
  lemma LeaderboardPrefix(db: Db, small: nat, large: nat)
    requires small <= large
    ensures Leaderboard(db, small) <= Leaderboard(db, large)
  {
  }
}
