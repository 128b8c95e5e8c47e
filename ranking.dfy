/**
 * The ranking rule shared by both stores. A user's rank is one more than the
 * number of users with a strictly higher rating: SQL's `RANK() OVER (ORDER BY
 * rating DESC)` on the table, `ZCOUNT (rating +inf` plus one on the cache.
 * Tied ratings share a rank and the next rating skips past the whole tie
 * group (competition ranking: 500, 500, 300 rank 1, 1, 3).
 */
module Ranking {
  import opened Models
  import Text
  import Member
  import ZSet
  import Sets

  /**
   * The constraints of the `users` table: every row is stored under its own
   * primary key, and usernames are UNIQUE.
   */
  ghost predicate TableValid(users: map<int, User>) {
    (forall id :: id in users ==> users[id].id == id) &&
    (forall a, b :: a in users && b in users && users[a].username == users[b].username ==> a == b)
  }

  /** Any part of a valid table is a valid table. */
  lemma SubTable(users: map<int, User>, part: map<int, User>)
    requires TableValid(users)
    requires forall id :: id in part ==> id in users && part[id] == users[id]
    ensures TableValid(part)
  {
  }

  /** A row with a fresh id and a fresh username keeps the table valid. */
  lemma InsertTable(users: map<int, User>, u: User)
    requires TableValid(users) && u.id !in users
    requires forall id :: id in users ==> users[id].username != u.username
    ensures TableValid(users[u.id := u])
  {
  }

  /** Changing a row's rating keeps the table valid. */
  lemma RerateTable(users: map<int, User>, id: int, rating: int)
    requires TableValid(users) && id in users
    ensures TableValid(users[id := users[id].(rating := rating)])
  {
  }

  /** Member keys of distinct users differ. */
  lemma OfInjective()
    ensures forall u1: User, u2: User :: Member.Of(u1) == Member.Of(u2) ==> u1.id == u2.id && u1.username == u2.username
  {
    forall u1: User, u2: User | Member.Of(u1) == Member.Of(u2)
      ensures u1.id == u2.id && u1.username == u2.username
    {
      Member.EncodeInjective(u1.username, u1.id, u2.username, u2.id);
    }
  }

  /** The sorted set a table should be mirrored as: member key to rating. */
  function Image(users: map<int, User>): (m: map<string, int>)
    requires TableValid(users)
  {
    OfInjective();
    map id | id in users :: Member.Of(users[id]) := users[id].rating
  }

  /** Every row has its member in the image, scored with its rating. */
  lemma ImageAt(users: map<int, User>, id: int)
    requires TableValid(users) && id in users
    ensures Member.Of(users[id]) in Image(users)
    ensures Image(users)[Member.Of(users[id])] == users[id].rating
  {
    OfInjective();
  }

  /** Every member of the image belongs to some row. */
  lemma ImageKey(users: map<int, User>, k: string)
    requires TableValid(users) && k in Image(users)
    ensures exists id :: id in users && Member.Of(users[id]) == k
  {
  }

  /**
   * Writing a row that is new, or that keeps its username, sets exactly its
   * member's score in the image.
   */
  lemma ImageInsert(users: map<int, User>, u: User)
    requires TableValid(users) && TableValid(users[u.id := u])
    requires u.id in users ==> users[u.id].username == u.username
    ensures Image(users[u.id := u]) == Image(users)[Member.Of(u) := u.rating]
  {
    var after, want := Image(users[u.id := u]), Image(users)[Member.Of(u) := u.rating];
    forall k | k in after ensures k in want && after[k] == want[k] {
      ImageInsertOld(users, u, k);
    }
    forall k | k in want ensures k in after {
      ImageInsertNew(users, u, k);
    }
    MapExt(after, want);
  }

  lemma ImageInsertOld(users: map<int, User>, u: User, k: string)
    requires TableValid(users) && TableValid(users[u.id := u])
    requires k in Image(users[u.id := u])
    ensures k in Image(users)[Member.Of(u) := u.rating]
    ensures Image(users[u.id := u])[k] == Image(users)[Member.Of(u) := u.rating][k]
  {
    var users' := users[u.id := u];
    ImageKey(users', k);
    var id :| id in users' && Member.Of(users'[id]) == k;
    ImageAt(users', id);
    if id != u.id {
      ImageAt(users, id);
      OfInjective();
    }
  }

  lemma ImageInsertNew(users: map<int, User>, u: User, k: string)
    requires TableValid(users) && TableValid(users[u.id := u])
    requires u.id in users ==> users[u.id].username == u.username
    requires k in Image(users)[Member.Of(u) := u.rating]
    ensures k in Image(users[u.id := u])
  {
    var users' := users[u.id := u];
    if k == Member.Of(u) {
      ImageAt(users', u.id);
    } else {
      ImageKey(users, k);
      var id :| id in users && Member.Of(users[id]) == k;
      assert id != u.id;
      ImageAt(users', id);
    }
  }

  lemma MapExt<K, V>(a: map<K, V>, b: map<K, V>)
    requires forall k :: k in a ==> k in b && a[k] == b[k]
    requires forall k :: k in b ==> k in a
    ensures a == b
  {
  }

  /** The map a run of ZADDs of the rows' members and ratings builds, later rows winning. */
  function ImageOf(rows: seq<User>): map<string, int>
    decreases |rows|
  {
    if rows == [] then map[]
    else ImageOf(rows[..|rows| - 1])[Member.Of(rows[|rows| - 1]) := rows[|rows| - 1].rating]
  }

  /** Every key of the built map is some row's member. */
  lemma {:induction false} ImageOfKey(rows: seq<User>, k: string)
    requires k in ImageOf(rows)
    ensures exists i :: 0 <= i < |rows| && Member.Of(rows[i]) == k
    decreases |rows|
  {
    var init := rows[..|rows| - 1];
    if k != Member.Of(rows[|rows| - 1]) {
      ImageOfKey(init, k);
      var i :| 0 <= i < |init| && Member.Of(init[i]) == k;
      assert rows[i] == init[i];
    }
  }

  /** When no id repeats, every row's member carries that row's rating. */
  lemma {:induction false} ImageOfAt(rows: seq<User>, i: int)
    requires 0 <= i < |rows|
    requires forall a, b :: 0 <= a < b < |rows| ==> rows[a].id != rows[b].id
    ensures Member.Of(rows[i]) in ImageOf(rows)
    ensures ImageOf(rows)[Member.Of(rows[i])] == rows[i].rating
    decreases |rows|
  {
    var init := rows[..|rows| - 1];
    if i < |rows| - 1 {
      OfInjective();
      assert init[i] == rows[i];
      ImageOfAt(init, i);
      assert Member.Of(rows[i]) != Member.Of(rows[|rows| - 1]);
    }
  }

  /** ZADDs of a listing of the whole table, in any order, build the table's image. */
  lemma ImageOfEnumeration(rows: seq<User>, users: map<int, User>)
    requires TableValid(users) && Enumerates(rows, users)
    ensures ImageOf(rows) == Image(users)
  {
    var a, b := ImageOf(rows), Image(users);
    forall k | k in a ensures k in b && a[k] == b[k] {
      ImageOfKey(rows, k);
      var i :| 0 <= i < |rows| && Member.Of(rows[i]) == k;
      ImageOfAt(rows, i);
      ImageAt(users, rows[i].id);
    }
    forall k | k in b ensures k in a {
      ImageKey(users, k);
      var id :| id in users && Member.Of(users[id]) == k;
      var i := IndexOfId(rows, users, id);
      ImageOfAt(rows, i);
    }
    MapExt(a, b);
  }

  // ---------------------------------------------------------------------
  // SQL RANK()

  /** The ids of the rows rated strictly above `x`. */
  function Above(users: map<int, User>, x: int): set<int> {
    set id | id in users && users[id].rating > x
  }

  /** `RANK() OVER (ORDER BY rating DESC)` of a row rated `x`. */
  function SqlRank(users: map<int, User>, x: int): (r: int)
    ensures r >= 1
    ensures r == 1 <==> forall id :: id in users ==> users[id].rating <= x
  {
    if forall id :: id in users ==> users[id].rating <= x then
      assert Above(users, x) == {};
      1 + |Above(users, x)|
    else
      var id :| id in users && users[id].rating > x;
      assert id in Above(users, x);
      1 + |Above(users, x)|
  }

  /**
   * The central agreement: once the cache holds exactly the image of the
   * table, `ZCOUNT` plus one and SQL `RANK()` give the same rank for every
   * rating.
   */
  lemma CacheRankIsSqlRank(users: map<int, User>, cache: seq<ZSet.Entry>, x: int)
    requires TableValid(users) && ZSet.MapOf(cache) == Image(users)
    ensures 1 + ZSet.ZCount(cache, x) == SqlRank(users, x)
  {
    ImageCountAbove(users, x);
  }

  /** The image has one member above `x` per row above `x`. */
  lemma ImageCountAbove(users: map<int, User>, x: int)
    requires TableValid(users)
    ensures ZSet.CountAbove(Image(users), x) == |Above(users, x)|
  {
    var m := Image(users);
    var above := set k | k in m && m[k] > x;
    var ids := Above(users, x);
    var f := (id: int) => if id in users then Member.Of(users[id]) else "";
    OfInjective();
    forall id | id in ids ensures f(id) in above {
      ImageAt(users, id);
    }
    forall a, b | a in ids && b in ids && f(a) == f(b) ensures a == b {
      assert users[a].id == users[b].id;
    }
    forall k | k in above ensures exists id :: id in ids && f(id) == k {
      var id :| id in users && Member.Of(users[id]) == k;
      ImageAt(users, id);
      assert id in ids;
    }
    Sets.InjectiveImageCard<int, string>(ids, f, above);
  }

  /** A row's rank is positive and at most the number of rows. */
  lemma SqlRankBounds(users: map<int, User>, id: int)
    requires id in users
    ensures 1 <= SqlRank(users, users[id].rating) <= |users|
  {
    var x := users[id].rating;
    assert Above(users, x) <= users.Keys - {id};
    assert |users.Keys - {id}| == |users| - 1;
    SubsetCard(Above(users, x), users.Keys - {id});
  }

  lemma {:induction false} SubsetCard<T>(a: set<T>, b: set<T>)
    requires a <= b
    ensures |a| <= |b|
    decreases |b|
  {
    if a != {} {
      var x :| x in a;
      SubsetCard(a - {x}, b - {x});
    }
  }

  /** A higher rating never ranks behind a lower one. */
  lemma SqlRankMonotone(users: map<int, User>, x: int, y: int)
    requires x >= y
    ensures SqlRank(users, x) <= SqlRank(users, y)
  {
    SubsetCard(Above(users, x), Above(users, y));
  }

  /** Ratings 500, 500 and 300 rank 1, 1 and 3, not 1, 1, 2 and not 1, 2, 3. */
  lemma CompetitionExample()
    ensures var users := map[1 := User(1, "alice", 500), 2 := User(2, "bob", 500), 3 := User(3, "carol", 300)];
            SqlRank(users, users[1].rating) == 1 &&
            SqlRank(users, users[2].rating) == 1 &&
            SqlRank(users, users[3].rating) == 3
  {
    var users := map[1 := User(1, "alice", 500), 2 := User(2, "bob", 500), 3 := User(3, "carol", 300)];
    assert Above(users, 500) == {};
    assert Above(users, 300) == {1, 2};
  }

  // ---------------------------------------------------------------------
  // Ordered result sets

  /** Ratings never increase along `rows`: `ORDER BY rating DESC`. */
  predicate NonIncreasing(rows: seq<User>) {
    forall i, j :: 0 <= i < j < |rows| ==> rows[i].rating >= rows[j].rating
  }

  /** A result listing whose ratings never increase. */
  predicate RanksInOrder(rows: seq<UserWithRank>) {
    forall i, j :: 0 <= i < j < |rows| ==> rows[i].user.rating >= rows[j].user.rating
  }

  /** `rows` lists every row of `users` exactly once. */
  ghost predicate Enumerates(rows: seq<User>, users: map<int, User>) {
    |rows| == |users| &&
    (forall i :: 0 <= i < |rows| ==> rows[i].id in users && users[rows[i].id] == rows[i]) &&
    (forall i, j :: 0 <= i < j < |rows| ==> rows[i].id != rows[j].id)
  }

  /**
   * In a listing by rating descending, the row that opens a group of equal
   * ratings at position `p` (counting from 0) has rank `p + 1`: the rank
   * skips by the size of every tie group before it.
   */
  lemma SqlRankAtGroupStart(rows: seq<User>, users: map<int, User>, p: int)
    requires Enumerates(rows, users) && NonIncreasing(rows)
    requires 0 <= p < |rows|
    requires p == 0 || rows[p - 1].rating > rows[p].rating
    ensures SqlRank(users, rows[p].rating) == p + 1
  {
    AboveIsPrefix(rows, users, p);
    PrefixIdsCard(rows, p, Above(users, rows[p].rating));
  }

  /** A set holding exactly the distinct ids of the first `p` rows has `p` elements. */
  lemma PrefixIdsCard(rows: seq<User>, p: int, s: set<int>)
    requires 0 <= p <= |rows|
    requires forall i, j :: 0 <= i < j < p ==> rows[i].id != rows[j].id
    requires forall j :: 0 <= j < p ==> rows[j].id in s
    requires forall id :: id in s ==> exists j :: 0 <= j < p && rows[j].id == id
    ensures |s| == p
  {
    var below := Sets.Below(p);
    var f := (j: nat) => if j < |rows| then rows[j].id else 0;
    forall id | id in s ensures exists j :: j in below && f(j) == id {
      var j :| 0 <= j < p && rows[j].id == id;
      assert j in below && f(j) == id;
    }
    Sets.InjectiveImageCard<nat, int>(below, f, s);
  }

  /** The rows above a group start are exactly the rows listed before it. */
  lemma AboveIsPrefix(rows: seq<User>, users: map<int, User>, p: int)
    requires Enumerates(rows, users) && NonIncreasing(rows)
    requires 0 <= p < |rows|
    requires p == 0 || rows[p - 1].rating > rows[p].rating
    ensures forall j :: 0 <= j < p ==> rows[j].id in Above(users, rows[p].rating)
    ensures forall id :: id in Above(users, rows[p].rating) ==> exists j :: 0 <= j < p && rows[j].id == id
  {
    forall j | 0 <= j < p ensures rows[j].rating > rows[p].rating {
      assert rows[j].rating >= rows[p - 1].rating;
    }
    forall id | id in Above(users, rows[p].rating) ensures exists j :: 0 <= j < p && rows[j].id == id {
      var j := IndexOfId(rows, users, id);
      assert rows[j] == users[id];
    }
  }

  /** Where a row of the table sits in a listing of it. */
  lemma IndexOfId(rows: seq<User>, users: map<int, User>, id: int) returns (j: nat)
    requires Enumerates(rows, users) && id in users
    ensures j < |rows| && rows[j].id == id
  {
    var ids := set i | 0 <= i < |rows| :: rows[i].id;
    PrefixIdsCard(rows, |rows|, ids);
    SubsetSameCard(ids, users.Keys);
    assert id in ids;
    j :| 0 <= j < |rows| && rows[j].id == id;
  }

  /** A subset as large as its superset is the superset. */
  lemma {:induction false} SubsetSameCard<T>(a: set<T>, b: set<T>)
    requires a <= b && |a| == |b|
    ensures a == b
    decreases |a|
  {
    if a != {} {
      var x :| x in a;
      SubsetSameCard(a - {x}, b - {x});
      assert a == (a - {x}) + {x} && b == (b - {x}) + {x};
    }
  }
}
