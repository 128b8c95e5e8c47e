/**
 * The leaderboard repository: the `users` table as the source of truth, the
 * Redis sorted set `global_leaderboard` as a mirror that serves rank queries,
 * and the rules that keep the two in step. A repository built without a
 * reachable Redis (`cacheAvailable` false) answers everything from SQL.
 *
 * Database and Redis faults that the code reacts to are boolean parameters;
 * the id the database assigns to a new row is a parameter as well.
 */
module UserRepo {
  import opened Models
  import opened Text
  import Member
  import ZSet
  import opened Ranking
  import Sql

  /** The errors the database reports to the repository. */
  datatype DbError =
    | NotFound          // GORM's ErrRecordNotFound
    | UniqueViolation   // a second row with the same id or username
    | NegativeOffset    // PostgreSQL: OFFSET must not be negative
    | NegativeLimit     // PostgreSQL: LIMIT must not be negative
    | Failure           // any I/O or connection error

  /** The Go zero value of `models.User`, returned beside a lookup error. */
  const ZeroUser := User(0, "", 0)

  /** The most rows a search returns. */
  const SearchLimit := 10

  /** Some row already holds `name` (the UNIQUE username column). */
  predicate UsernameTaken(users: map<int, User>, name: string) {
    exists id :: id in users && users[id].username == name
  }

  // ---------------------------------------------------------------------
  // The cache read path, as a function of the page and the whole set

  /**
   * The result row for one page entry: the username and id read back from
   * the member, the score as rating, and one more than the number of members
   * scoring strictly higher as rank. Entries whose member has no colon give
   * no row.
   */
  function RowOf(e: ZSet.Entry, cache: seq<ZSet.Entry>): (r: Option<UserWithRank>)
    ensures r.Some? <==> ':' in e.member
    ensures r.Some? ==> r.value.user.rating == e.score && r.value.rank >= 1 && ':' !in r.value.user.username
  {
    Member.DecodeNoneIff(e.member);
    match Member.Decode(e.member)
    case None => None
    case Some(d) => Some(UserWithRank(User(d.id, d.username, e.score), ZSet.ZCount(cache, e.score) + 1))
  }

  /** The entries' rows, in order, dropping the entries that give none. */
  function Present(rs: seq<Option<UserWithRank>>): seq<UserWithRank>
    decreases |rs|
  {
    if rs == [] then []
    else
      var rest := Present(rs[..|rs| - 1]);
      match rs[|rs| - 1]
      case None => rest
      case Some(r) => rest + [r]
  }

  /** What each entry of a page reads back as. */
  function RowsOf(page: seq<ZSet.Entry>, cache: seq<ZSet.Entry>): (rs: seq<Option<UserWithRank>>)
    ensures |rs| == |page| && forall i :: 0 <= i < |page| ==> rs[i] == RowOf(page[i], cache)
  {
    seq(|page|, i requires 0 <= i < |page| => RowOf(page[i], cache))
  }

  /** The rows of a page, in page order. */
  function Assemble(page: seq<ZSet.Entry>, cache: seq<ZSet.Entry>): seq<UserWithRank> {
    Present(RowsOf(page, cache))
  }

  /** One more entry adds its row, if it gives one, at the end. */
  lemma AssembleSnoc(page: seq<ZSet.Entry>, e: ZSet.Entry, cache: seq<ZSet.Entry>)
    ensures Assemble(page + [e], cache) ==
            Assemble(page, cache) + (if RowOf(e, cache).Some? then [RowOf(e, cache).value] else [])
  {
    var rs := RowsOf(page + [e], cache);
    assert rs[..|rs| - 1] == RowsOf(page, cache);
  }

  /** Every kept row is the row of some entry, and the order is kept. */
  lemma {:induction false} PresentRows(rs: seq<Option<UserWithRank>>)
    ensures |Present(rs)| <= |rs|
    ensures forall j :: 0 <= j < |Present(rs)| ==> exists i :: 0 <= i < |rs| && rs[i] == Some(Present(rs)[j])
    decreases |rs|
  {
    if rs != [] {
      var init := rs[..|rs| - 1];
      PresentRows(init);
      var rest := Present(init);
      forall j | 0 <= j < |rest| ensures exists i :: 0 <= i < |rs| && rs[i] == Some(rest[j]) {
        var i :| 0 <= i < |init| && init[i] == Some(rest[j]);
        assert rs[i] == init[i];
      }
    }
  }

  /** Rows given in order of descending rating are kept in that order. */
  lemma {:induction false} PresentOrdered(rs: seq<Option<UserWithRank>>)
    requires forall i, j :: 0 <= i < j < |rs| && rs[i].Some? && rs[j].Some? ==>
               rs[i].value.user.rating >= rs[j].value.user.rating
    ensures RanksInOrder(Present(rs))
    decreases |rs|
  {
    if rs != [] {
      var init := rs[..|rs| - 1];
      assert forall i :: 0 <= i < |init| ==> init[i] == rs[i];
      PresentOrdered(init);
      PresentRows(init);
    }
  }

  /** When every entry gives a row, all of them are kept. */
  lemma {:induction false} PresentAll(rs: seq<Option<UserWithRank>>)
    requires forall i :: 0 <= i < |rs| ==> rs[i].Some?
    ensures |Present(rs)| == |rs|
    ensures forall i :: 0 <= i < |rs| ==> Present(rs)[i] == rs[i].value
    decreases |rs|
  {
    if rs != [] {
      var init := rs[..|rs| - 1];
      assert forall i :: 0 <= i < |init| ==> init[i] == rs[i];
      PresentAll(init);
    }
  }

  /** A row read from an entry carries the entry's score and the count above it. */
  lemma RowOfScore(e: ZSet.Entry, cache: seq<ZSet.Entry>)
    requires RowOf(e, cache).Some?
    ensures RowOf(e, cache).value.user.rating == e.score
    ensures RowOf(e, cache).value.rank == ZSet.ZCount(cache, e.score) + 1
  {
  }

  /**
   * Every assembled row has the score of some page entry as its rating and
   * one more than the number of members above that score as its rank; none
   * are invented.
   */
  lemma AssembleRows(page: seq<ZSet.Entry>, cache: seq<ZSet.Entry>)
    ensures |Assemble(page, cache)| <= |page|
    ensures forall j :: 0 <= j < |Assemble(page, cache)| ==>
              Assemble(page, cache)[j].rank == ZSet.ZCount(cache, Assemble(page, cache)[j].user.rating) + 1
    ensures forall j :: 0 <= j < |Assemble(page, cache)| ==>
              exists i :: 0 <= i < |page| && Assemble(page, cache)[j].user.rating == page[i].score
  {
    var rs := RowsOf(page, cache);
    PresentRows(rs);
    var rows := Present(rs);
    forall j | 0 <= j < |rows|
      ensures rows[j].rank == ZSet.ZCount(cache, rows[j].user.rating) + 1
      ensures exists i :: 0 <= i < |page| && rows[j].user.rating == page[i].score
    {
      var i :| 0 <= i < |rs| && rs[i] == Some(rows[j]);
      RowOfScore(page[i], cache);
    }
  }

  /** A page listed by descending score gives rows by descending rating. */
  lemma AssembleOrdered(page: seq<ZSet.Entry>, cache: seq<ZSet.Entry>)
    requires forall i, j :: 0 <= i < j < |page| ==> page[i].score >= page[j].score
    ensures RanksInOrder(Assemble(page, cache))
  {
    var rs := RowsOf(page, cache);
    forall i | 0 <= i < |rs| && rs[i].Some? ensures rs[i].value.user.rating == page[i].score {
      RowOfScore(page[i], cache);
    }
    PresentOrdered(rs);
  }

  /** When every entry gives a row, the rows line up one to one with the page. */
  lemma AssembleAll(page: seq<ZSet.Entry>, cache: seq<ZSet.Entry>)
    requires forall i :: 0 <= i < |page| ==> RowOf(page[i], cache).Some?
    ensures |Assemble(page, cache)| == |page|
    ensures forall i :: 0 <= i < |page| ==> Assemble(page, cache)[i] == RowOf(page[i], cache).value
  {
    PresentAll(RowsOf(page, cache));
  }

  /** Members whose username holds no colon and whose id is a Go `int`. */
  ghost predicate CleanTable(users: map<int, User>) {
    forall id :: id in users ==> ':' !in users[id].username && IsInt64(id)
  }

  /** A result row that is a row of the table, carrying its SQL `RANK()`. */
  ghost predicate TableRow(r: UserWithRank, users: map<int, User>) {
    r.user.id in users && users[r.user.id] == r.user && r.rank == SqlRank(users, r.user.rating)
  }

  /**
   * End to end: a page cut from a cache that mirrors the table gives back
   * exactly the table's rows, each with its SQL `RANK()`.
   */
  lemma CachePageIsTable(users: map<int, User>, cache: seq<ZSet.Entry>, lo: int, hi: int)
    requires TableValid(users) && CleanTable(users)
    requires ZSet.Valid(cache) && ZSet.MapOf(cache) == Image(users)
    requires 0 <= lo <= hi <= |cache|
    ensures |Assemble(cache[lo..hi], cache)| == hi - lo
    ensures forall j :: 0 <= j < hi - lo ==> TableRow(Assemble(cache[lo..hi], cache)[j], users)
  {
    MirroredRows(users, cache);
    PageOfTableRows(users, cache, lo, hi);
  }

  /** A page cut from entries that all read back as table rows gives those rows. */
  lemma PageOfTableRows(users: map<int, User>, cache: seq<ZSet.Entry>, lo: int, hi: int)
    requires forall k :: 0 <= k < |cache| ==> ':' in cache[k].member
    requires forall k :: 0 <= k < |cache| ==> RowOf(cache[k], cache).Some? && TableRow(RowOf(cache[k], cache).value, users)
    requires 0 <= lo <= hi <= |cache|
    ensures |Assemble(cache[lo..hi], cache)| == hi - lo
    ensures forall j :: 0 <= j < hi - lo ==> TableRow(Assemble(cache[lo..hi], cache)[j], users)
  {
    var page := cache[lo..hi];
    assert forall i :: 0 <= i < |page| ==> page[i] == cache[lo + i];
    AssembleAll(page, cache);
  }

  /** Every entry of a mirroring cache reads back as a row of the table. */
  lemma MirroredRows(users: map<int, User>, cache: seq<ZSet.Entry>)
    requires TableValid(users) && CleanTable(users)
    requires ZSet.Valid(cache) && ZSet.MapOf(cache) == Image(users)
    ensures forall k :: 0 <= k < |cache| ==> ':' in cache[k].member
    ensures forall k :: 0 <= k < |cache| ==> RowOf(cache[k], cache).Some? && TableRow(RowOf(cache[k], cache).value, users)
  {
    forall k | 0 <= k < |cache|
      ensures ':' in cache[k].member && RowOf(cache[k], cache).Some? && TableRow(RowOf(cache[k], cache).value, users)
    {
      MirroredEntry(users, cache, k);
    }
  }

  /** Each entry of a mirroring cache is some row's member, scored with its rating. */
  lemma MirroredEntry(users: map<int, User>, cache: seq<ZSet.Entry>, k: int)
    requires TableValid(users) && CleanTable(users)
    requires ZSet.Valid(cache) && ZSet.MapOf(cache) == Image(users)
    requires 0 <= k < |cache|
    ensures ':' in cache[k].member
    ensures RowOf(cache[k], cache).Some?
    ensures TableRow(RowOf(cache[k], cache).value, users)
  {
    CacheRankIsSqlRank(users, cache, cache[k].score);
    ZSet.MapOfAt(cache, k);
    ImageKey(users, cache[k].member);
    var id :| id in users && Member.Of(users[id]) == cache[k].member;
    ImageAt(users, id);
    Member.DecodeEncode(users[id].username, id);
    Member.DecodeNoneIff(cache[k].member);
  }

  /**
   * A set that mirrors a table is determined by the table: a second
   * `SyncToRedis` over the same rows leaves the set exactly as the first did.
   */
  lemma MirrorIsUnique(users: map<int, User>, c1: seq<ZSet.Entry>, c2: seq<ZSet.Entry>)
    requires TableValid(users)
    requires ZSet.Valid(c1) && ZSet.MapOf(c1) == Image(users)
    requires ZSet.Valid(c2) && ZSet.MapOf(c2) == Image(users)
    ensures c1 == c2
  {
    ZSet.Canonical(c1, c2);
  }

  /** Some entry of the page has score `sc`. */
  predicate HasScore(page: seq<ZSet.Entry>, sc: int) {
    exists j :: 0 <= j < |page| && page[j].score == sc
  }

  /** The number of distinct scores on a page: the entries whose score no earlier entry has. */
  function DistinctScores(page: seq<ZSet.Entry>): nat
    decreases |page|
  {
    if page == [] then 0
    else
      var init := page[..|page| - 1];
      DistinctScores(init) + if HasScore(init, page[|page| - 1].score) then 0 else 1
  }

  /**
   * One count per distinct score is never more than one per entry, at least
   * one for a non-empty page, exactly one per entry when no score repeats, and
   * a single one when every entry ties.
   */
  lemma {:induction false} DistinctScoresBounds(page: seq<ZSet.Entry>)
    ensures DistinctScores(page) <= |page|
    ensures page != [] ==> DistinctScores(page) >= 1
    ensures (forall i, j :: 0 <= i < j < |page| ==> page[i].score != page[j].score) ==> DistinctScores(page) == |page|
    ensures page != [] && (forall i :: 0 <= i < |page| ==> page[i].score == page[0].score) ==> DistinctScores(page) == 1
    decreases |page|
  {
    if page != [] {
      var init := page[..|page| - 1];
      DistinctScoresBounds(init);
      if forall i, j :: 0 <= i < j < |page| ==> page[i].score != page[j].score {
        forall j | 0 <= j < |init| ensures init[j].score != page[|page| - 1].score {
          assert init[j] == page[j];
        }
      }
      if init != [] && forall i :: 0 <= i < |page| ==> page[i].score == page[0].score {
        assert init[0].score == page[|page| - 1].score;
      }
    }
  }

  /**
   * The ZCOUNT pipeline of the cache read path: one `ZCOUNT key (score +inf`
   * per distinct score on the page, each answered from the same set.
   */
  method QueueCounts(page: seq<ZSet.Entry>, cache: seq<ZSet.Entry>) returns (uniqueScores: map<int, nat>, lookups: nat)
    ensures forall sc :: sc in uniqueScores <==> HasScore(page, sc)
    ensures forall sc :: sc in uniqueScores ==> uniqueScores[sc] == ZSet.ZCount(cache, sc)
    ensures lookups == DistinctScores(page)
  {
    lookups := 0;
    uniqueScores := map[];
    var i := 0;
    while i < |page|
      invariant 0 <= i <= |page|
      invariant forall sc :: sc in uniqueScores <==> HasScore(page[..i], sc)
      invariant forall sc :: sc in uniqueScores ==> uniqueScores[sc] == ZSet.ZCount(cache, sc)
      invariant lookups == DistinctScores(page[..i])
    {
      assert page[..i + 1][..i] == page[..i];
      forall sc ensures HasScore(page[..i + 1], sc) <==> HasScore(page[..i], sc) || sc == page[i].score {
        if HasScore(page[..i + 1], sc) && sc != page[i].score {
          var j :| 0 <= j < i + 1 && page[..i + 1][j].score == sc;
          assert page[..i][j].score == sc;
        }
        if HasScore(page[..i], sc) {
          var j :| 0 <= j < i && page[..i][j].score == sc;
          assert page[..i + 1][j].score == sc;
        }
        if sc == page[i].score {
          assert page[..i + 1][i].score == sc;
        }
      }
      if page[i].score !in uniqueScores {
        uniqueScores := uniqueScores[page[i].score := ZSet.ZCount(cache, page[i].score)];
        lookups := lookups + 1;
      }
      i := i + 1;
    }
    assert page[..|page|] == page;
  }

  /**
   * The assembly loop: split each member at its colons, skip it when there is
   * no colon, and rank it by its score's queued count.
   */
  method AssemblePage(page: seq<ZSet.Entry>, cache: seq<ZSet.Entry>, uniqueScores: map<int, nat>) returns (rows: seq<UserWithRank>)
    requires forall sc :: HasScore(page, sc) ==> sc in uniqueScores && uniqueScores[sc] == ZSet.ZCount(cache, sc)
    ensures rows == Assemble(page, cache)
  {
    // Assemble the rows from the member keys and the counts.
    rows := [];
    var i := 0;
    while i < |page|
      invariant 0 <= i <= |page|
      invariant rows == Assemble(page[..i], cache)
    {
      assert page[..i + 1] == page[..i] + [page[i]];
      AssembleSnoc(page[..i], page[i], cache);
      assert HasScore(page, page[i].score);
      var parts := Split(page[i].member, ':');
      if |parts| >= 2 {
        var username := parts[0];
        var id := Atoi(parts[1]).value;
        var higherCount := uniqueScores[page[i].score];
        rows := rows + [UserWithRank(User(id, username, page[i].score), higherCount + 1)];
      }
      i := i + 1;
    }
    assert page[..|page|] == page;
  }

  /**
   * With `limit` 0 and `offset` 0 the stop index is -1, which Redis reads as
   * the last element: the whole set comes back.
   */
  lemma ZeroLimitReadsAll(cache: seq<ZSet.Entry>)
    ensures ZSet.RevRange(cache, 0, Wrap64(0 + 0 - 1)) == cache
  {
  }

  /**
   * The handler can pass the largest 64-bit offset. Then `offset + limit - 1`
   * wraps to a negative stop index; the start lies past the end of any set
   * Redis can hold, so the page is empty.
   */
  lemma {:induction false} MaxOffsetWraps(cache: seq<ZSet.Entry>, limit: int)
    requires 1 <= limit <= 100 && |cache| <= MaxInt64
    ensures limit == 1 ==> Wrap64(MaxInt64 + limit - 1) == MaxInt64
    ensures limit > 1 ==> Wrap64(MaxInt64 + limit - 1) == MinInt64 + limit - 2 < 0
    ensures CacheWindow(cache, MaxInt64, limit) == []
  {
    assert ZSet.RevRange(cache, MaxInt64, Wrap64(MaxInt64 + limit - 1)) == [];
  }

  /**
   * `getUserWithRankSQL`: the `RANK()` of the row with this id, or 0 when
   * the subquery yields no row.
   */
  function RankOfId(users: map<int, User>, id: int): (rank: int)
    ensures id in users ==> rank == SqlRank(users, users[id].rating)
    ensures id in users ==> 1 <= rank <= |users|
    ensures id !in users ==> rank == 0
  {
    if id in users then
      SqlRankBounds(users, id);
      SqlRank(users, users[id].rating)
    else 0
  }

  /** The search's SQL path: one `getUserWithRankSQL` per found row, in order. */
  method RankBySql(users: map<int, User>, found: seq<User>) returns (results: seq<UserWithRank>)
    requires forall i :: 0 <= i < |found| ==> found[i].id in users && users[found[i].id] == found[i]
    ensures |results| == |found|
    ensures forall i :: 0 <= i < |found| ==> results[i] == UserWithRank(found[i], SqlRank(users, found[i].rating))
  {
    results := [];
    var i := 0;
    while i < |found|
      invariant 0 <= i <= |found|
      invariant |results| == i
      invariant forall j :: 0 <= j < i ==> results[j] == UserWithRank(found[j], SqlRank(users, found[j].rating))
    {
      var rank := RankOfId(users, found[i].id);
      results := results + [UserWithRank(found[i], rank)];
      i := i + 1;
    }
  }

  /**
   * The search's cache path: queue one `ZCOUNT` per found row in a pipeline,
   * then pair each row with its count plus one.
   */
  method RankByCache(cache: seq<ZSet.Entry>, found: seq<User>) returns (results: seq<UserWithRank>)
    ensures |results| == |found|
    ensures forall i :: 0 <= i < |found| ==> results[i] == UserWithRank(found[i], ZSet.ZCount(cache, found[i].rating) + 1)
  {
    var rankCmds: seq<nat> := [];
    var i := 0;
    while i < |found|
      invariant 0 <= i <= |found|
      invariant |rankCmds| == i
      invariant forall j :: 0 <= j < i ==> rankCmds[j] == ZSet.ZCount(cache, found[j].rating)
    {
      rankCmds := rankCmds + [ZSet.ZCount(cache, found[i].rating)];
      i := i + 1;
    }
    results := [];
    i := 0;
    while i < |found|
      invariant 0 <= i <= |found|
      invariant |results| == i
      invariant forall j :: 0 <= j < i ==> results[j] == UserWithRank(found[j], rankCmds[j] + 1)
    {
      results := results + [UserWithRank(found[i], rankCmds[i] + 1)];
      i := i + 1;
    }
  }

  /**
   * The pipeline of `SyncToRedis`: DEL, then one ZADD per row, applied in
   * order by EXEC; the set it leaves behind holds each row's member with its
   * rating.
   */
  method SyncPipeline(rows: seq<User>) returns (next: seq<ZSet.Entry>)
    ensures ZSet.Valid(next) && ZSet.MapOf(next) == ImageOf(rows)
  {
    next := [];
    var i := 0;
    while i < |rows|
      invariant 0 <= i <= |rows|
      invariant ZSet.Valid(next) && ZSet.MapOf(next) == ImageOf(rows[..i])
    {
      assert rows[..i + 1][..i] == rows[..i];
      ZSet.AddValid(next, Member.Of(rows[i]), rows[i].rating);
      next := ZSet.Add(next, Member.Of(rows[i]), rows[i].rating);
      i := i + 1;
    }
    assert rows[..|rows|] == rows;
  }

  /**
   * What the cache read path lists for `limit` rows from `offset` on: the
   * ZREVRANGE window from `offset` to `offset + limit - 1`, the stop index
   * computed in 64-bit arithmetic, assembled into rows.
   */
  function CacheWindow(cache: seq<ZSet.Entry>, offset: int, limit: int): (r: seq<UserWithRank>)
    ensures 0 <= offset <= MaxInt64 && 1 <= limit <= MaxInt64 && |cache| <= MaxInt64 ==> |r| <= limit
  {
    var page := ZSet.RevRange(cache, offset, Wrap64(offset + limit - 1));
    WindowPageBound(cache, offset, limit);
    PresentRows(RowsOf(page, cache));
    Assemble(page, cache)
  }

  /**
   * The `ZREVRANGE` page never holds more than `limit` entries: when
   * `offset + limit - 1` fits in an int64 the range is `limit` wide, and
   * when it wraps the stop index is negative and counts back from the end
   * of the set to a point before `offset`, so the page is empty.
   */
  lemma WindowPageBound(cache: seq<ZSet.Entry>, offset: int, limit: int)
    ensures 0 <= offset <= MaxInt64 && 1 <= limit <= MaxInt64 && |cache| <= MaxInt64 ==>
              |ZSet.RevRange(cache, offset, Wrap64(offset + limit - 1))| <= limit
  {
    if 0 <= offset <= MaxInt64 && 1 <= limit <= MaxInt64 && |cache| <= MaxInt64 && !IsInt64(offset + limit - 1) {
      var stop := Wrap64(offset + limit - 1);
      assert stop == offset + limit - 1 - 0x1_0000_0000_0000_0000;
      assert ZSet.RevRange(cache, offset, stop) == [];
    }
  }

  /**
   * The error of the SQL listing: a database fault comes first, then a
   * negative OFFSET, then a negative LIMIT, each of which PostgreSQL rejects.
   */
  function SqlError(dbFault: bool, limit: int, offset: int): (err: Option<DbError>)
    ensures err.None? <==> !dbFault && 0 <= offset && 0 <= limit
    ensures err.Some? ==> err.value in {Failure, NegativeOffset, NegativeLimit}
  {
    if dbFault then Some(Failure)
    else if offset < 0 then Some(NegativeOffset)
    else if limit < 0 then Some(NegativeLimit)
    else None
  }

  /** Steps 2 and 3 of the cache path: the queued counts, then the assembled rows. */
  method RankPage(page: seq<ZSet.Entry>, cache: seq<ZSet.Entry>) returns (rows: seq<UserWithRank>, lookups: nat)
    ensures rows == Assemble(page, cache) && |rows| <= |page|
    ensures lookups == DistinctScores(page) && lookups <= |page|
  {
    var uniqueScores;
    uniqueScores, lookups := QueueCounts(page, cache);
    rows := AssemblePage(page, cache, uniqueScores);
    PresentRows(RowsOf(page, cache));
    DistinctScoresBounds(page);
  }

  /** A window of `limit` entries from a non-negative `offset` gives at most `limit` rows. */
  lemma CacheWindowLength(cache: seq<ZSet.Entry>, offset: int, limit: int)
    requires 0 <= offset && 1 <= limit && IsInt64(offset + limit - 1)
    ensures |CacheWindow(cache, offset, limit)| <= limit
  {
    var page := ZSet.RevRange(cache, offset, Wrap64(offset + limit - 1));
    PresentRows(RowsOf(page, cache));
  }

  /**
   * The cache path of `GetLeaderboard` once `ZREVRANGE` has answered: the
   * page from `offset` to `offset + limit - 1`, one `ZCOUNT` per distinct
   * score on it, and the assembled rows.
   */
  method CacheQuery(cache: seq<ZSet.Entry>, offset: int, limit: int) returns (rows: seq<UserWithRank>, lookups: nat)
    ensures rows == CacheWindow(cache, offset, limit)
    ensures var page := ZSet.RevRange(cache, offset, Wrap64(offset + limit - 1));
            lookups == DistinctScores(page) && lookups <= |page|
  {
    var stop := Wrap64(offset + limit - 1);
    var page := ZSet.RevRange(cache, offset, stop);
    if |page| == 0 {
      rows, lookups := [], 0;
      assert Assemble(page, cache) == [];
      return;
    }
    rows, lookups := RankPage(page, cache);
  }

  /**
   * A window of `limit` rows from `offset` on, cut from a listing of the
   * whole table by rating descending, each row carrying its `RANK()`.
   */
  ghost predicate SqlWindow(users: map<int, User>, rows: seq<UserWithRank>, limit: int, offset: int) {
    0 <= offset && |rows| <= limit &&
    (offset >= |users| ==> rows == []) &&
    (offset < |users| ==> |rows| == ZSet.Min(limit, |users| - offset)) &&
    (exists ordering: seq<User> :: Enumerates(ordering, users) && NonIncreasing(ordering) &&
      forall j :: 0 <= j < |rows| ==>
        offset + j < |ordering| && rows[j] == UserWithRank(ordering[offset + j], SqlRank(users, ordering[offset + j].rating)))
  }

  /** The query of `getLeaderboardSQL` once both bounds are accepted. */
  method SqlWindowQuery(users: map<int, User>, limit: int, offset: int) returns (rows: seq<UserWithRank>)
    requires forall id :: id in users ==> users[id].id == id
    requires 0 <= offset && 0 <= limit
    ensures SqlWindow(users, rows, limit, offset)
  {
    var ordering := Sql.OrderByRatingDesc(users);
    var n := |ordering|;
    var count := if offset >= n then 0 else ZSet.Min(limit, n - offset);
    rows := seq(count, j requires 0 <= j < count => UserWithRank(ordering[offset + j], SqlRank(users, ordering[offset + j].rating)));
    assert Enumerates(ordering, users) && NonIncreasing(ordering);
  }

  // ---------------------------------------------------------------------
  // The repository

  /**
   * Inserting a row whose id and username are both new keeps the table
   * valid, and ZADDing its member keeps a sorted set valid and the image of
   * the table.
   */
  lemma InsertMirrors(users: map<int, User>, cache: seq<ZSet.Entry>, u: User)
    requires TableValid(users) && ZSet.Valid(cache)
    requires u.id !in users && !UsernameTaken(users, u.username)
    ensures TableValid(users[u.id := u])
    ensures ZSet.Valid(ZSet.Add(cache, Member.Of(u), u.rating))
    ensures ZSet.MapOf(cache) == Image(users) ==>
              ZSet.MapOf(ZSet.Add(cache, Member.Of(u), u.rating)) == Image(users[u.id := u])
  {
    InsertTable(users, u);
    ImageInsert(users, u);
    ZSet.AddValid(cache, Member.Of(u), u.rating);
  }

  class Repository {
    /** The `users` table, by primary key. */
    var users: map<int, User>
    /** The sorted set `global_leaderboard`, in ZREVRANGE order. */
    var cache: seq<ZSet.Entry>
    /** Redis answered the startup ping (`rdb != nil`). */
    const cacheAvailable: bool

    ghost predicate Valid()
      reads this
    {
      TableValid(users) && ZSet.Valid(cache) && (!cacheAvailable ==> cache == [])
    }

    /** The cache holds exactly one member per row, scored with its rating. */
    ghost predicate Mirrored()
      reads this
      requires Valid()
    {
      cacheAvailable ==> ZSet.MapOf(cache) == Image(users)
    }

    /**
     * A repository over an existing table and whatever the sorted set held
     * when the server started.
     */
    constructor (table: map<int, User>, redisSet: seq<ZSet.Entry>, available: bool)
      requires TableValid(table) && ZSet.Valid(redisSet)
      ensures Valid()
      ensures users == table && cacheAvailable == available
      ensures cache == if available then redisSet else []
    {
      users := table;
      cache := if available then redisSet else [];
      cacheAvailable := available;
    }

    /**
     * `SyncToRedis`: read every row, then in one pipeline delete the set and
     * add each row's member with its rating.
     */
    method SyncToRedis(dbFault: bool, execFault: bool) returns (err: Option<DbError>)
      requires Valid() && cacheAvailable
      modifies this`cache
      ensures Valid() && users == old(users)
      ensures err.None? <==> !dbFault && !execFault
      ensures err.Some? ==> err == Some(Failure) && cache == old(cache)
      ensures err.None? ==> Mirrored()
    {
      if dbFault {
        return Some(Failure);
      }
      var rows := Sql.Find(users);
      var next := SyncPipeline(rows);
      if execFault {
        return Some(Failure);
      }
      ImageOfEnumeration(rows, users);
      cache := next;
      err := None;
    }

    /**
     * `Create`: insert the row, then add its member to the set. The row keeps
     * the caller's id when it is not zero, otherwise takes `nextId` from the
     * database.
     */
    method Create(u: User, nextId: int, dbFault: bool) returns (created: User, err: Option<DbError>)
      requires Valid()
      modifies this`users, this`cache
      ensures Valid() && (old(Mirrored()) ==> Mirrored())
      ensures created == u.(id := if u.id != 0 then u.id else nextId)
      ensures err == Some(Failure) <==> dbFault
      ensures !dbFault ==>
                (err == Some(UniqueViolation) <==> created.id in old(users) || UsernameTaken(old(users), u.username))
      ensures err.None? || err == Some(Failure) || err == Some(UniqueViolation)
      ensures err.Some? ==> users == old(users) && cache == old(cache)
      ensures err.None? ==> users == old(users)[created.id := created]
      ensures err.None? ==>
                cache == if cacheAvailable then ZSet.Add(old(cache), Member.Of(created), created.rating) else old(cache)
    {
      created := u.(id := if u.id != 0 then u.id else nextId);
      if dbFault {
        return created, Some(Failure);
      }
      if created.id in users || UsernameTaken(users, u.username) {
        return created, Some(UniqueViolation);
      }
      InsertMirrors(users, cache, created);
      users := users[created.id := created];
      if cacheAvailable {
        cache := ZSet.Add(cache, Member.Of(created), created.rating);
      }
      err := None;
    }

    /**
     * `UpdateRating`: look the row up by id, write the new rating, then give
     * the row's member the new score.
     */
    method UpdateRating(userId: int, newRating: int, readFault: bool, writeFault: bool) returns (err: Option<DbError>)
      requires Valid()
      modifies this`users, this`cache
      ensures Valid() && (old(Mirrored()) ==> Mirrored())
      ensures readFault ==> err == Some(Failure)
      ensures !readFault && userId !in old(users) ==> err == Some(NotFound)
      ensures !readFault && userId in old(users) && writeFault ==> err == Some(Failure)
      ensures err.None? <==> !readFault && userId in old(users) && !writeFault
      ensures err.Some? ==> users == old(users) && cache == old(cache)
      ensures err.None? ==> users == old(users)[userId := old(users)[userId].(rating := newRating)]
      ensures err.None? ==>
                cache == if cacheAvailable then ZSet.Add(old(cache), Member.Of(old(users)[userId]), newRating) else old(cache)
    {
      if readFault {
        return Some(Failure);
      }
      if userId !in users {
        return Some(NotFound);
      }
      var user := users[userId];
      if writeFault {
        return Some(Failure);
      }
      var updated := user.(rating := newRating);
      RerateTable(users, userId, newRating);
      ImageInsert(users, updated);
      users := users[userId := updated];
      if cacheAvailable {
        ZSet.AddValid(cache, Member.Of(user), newRating);
        cache := ZSet.Add(cache, Member.Of(user), newRating);
      }
      err := None;
    }

    /**
     * `GetByUsername`: the row with the lowest id whose username matches
     * `%username%`, or the zero user beside an error.
     */
    method GetByUsername(username: string, dbFault: bool) returns (user: User, err: Option<DbError>)
      requires Valid()
      ensures dbFault ==> err == Some(Failure) && user == ZeroUser
      ensures !dbFault ==>
                (err.None? <==> exists id :: id in users && Sql.Like(users[id].username, Sql.Pattern(username)))
      ensures err.Some? ==> user == ZeroUser && (err == Some(Failure) || err == Some(NotFound))
      ensures !dbFault && err.Some? ==> err == Some(NotFound)
      ensures err.None? ==> user.id in users && users[user.id] == user
      ensures err.None? ==> Sql.Like(user.username, Sql.Pattern(username))
      ensures err.None? ==>
                forall id :: id in users && Sql.Like(users[id].username, Sql.Pattern(username)) ==> user.id <= id
    {
      if dbFault {
        return ZeroUser, Some(Failure);
      }
      var matching := Sql.Where(users, Sql.Pattern(username));
      var first := Sql.First(matching);
      if first.None? {
        assert forall id :: id !in matching;
        return ZeroUser, Some(NotFound);
      }
      user, err := first.value, None;
    }

    /**
     * `GetLeaderboard`: with Redis, the page `[offset, offset + limit - 1]` of
     * the set in descending order, ranked by one `ZCOUNT` per distinct score;
     * without Redis, the SQL query.
     */
    method GetLeaderboard(limit: int, offset: int, dbFault: bool, rangeFault: bool)
      returns (rows: seq<UserWithRank>, err: Option<DbError>, lookups: nat)
      requires Valid() && IsInt64(limit) && IsInt64(offset)
      ensures cacheAvailable ==>
                err.None? &&
                rows == if rangeFault then [] else CacheWindow(cache, offset, limit)
      ensures cacheAvailable && !rangeFault ==>
                var page := ZSet.RevRange(cache, offset, Wrap64(offset + limit - 1));
                lookups == DistinctScores(page) && lookups <= |page|
      ensures 0 <= offset && 1 <= limit && IsInt64(offset + limit - 1) ==> |rows| <= limit
      ensures 0 <= offset && 1 <= limit && |cache| <= MaxInt64 ==> |rows| <= limit
      ensures !cacheAvailable ==> lookups == 0 && SqlPage(rows, err, limit, offset, dbFault)
    {
      if !cacheAvailable {
        rows, err := GetLeaderboardSql(limit, offset, dbFault);
        lookups := 0;
        return;
      }
      err := None;
      if rangeFault {
        rows, lookups := [], 0;
      } else {
        rows, lookups := CacheQuery(cache, offset, limit);
        if 0 <= offset && 1 <= limit && IsInt64(offset + limit - 1) {
          CacheWindowLength(cache, offset, limit);
        }
      }
    }

    /**
     * What the SQL listing promises: the error `SqlError` names, and without
     * one the window `SqlWindow` describes.
     */
    ghost predicate SqlPage(rows: seq<UserWithRank>, err: Option<DbError>, limit: int, offset: int, dbFault: bool)
      reads this
    {
      err == SqlError(dbFault, limit, offset) &&
      (err.Some? ==> rows == []) &&
      (err.None? ==> SqlWindow(users, rows, limit, offset))
    }

    /**
     * `getLeaderboardSQL`: `RANK() OVER (ORDER BY rating DESC)` over the
     * whole table, listed by rating descending, then `LIMIT` and `OFFSET`.
     */
    method GetLeaderboardSql(limit: int, offset: int, dbFault: bool) returns (rows: seq<UserWithRank>, err: Option<DbError>)
      requires Valid()
      ensures SqlPage(rows, err, limit, offset, dbFault)
    {
      if dbFault {
        return [], Some(Failure);
      }
      if offset < 0 {
        return [], Some(NegativeOffset);
      }
      if limit < 0 {
        return [], Some(NegativeLimit);
      }
      rows := SqlWindowQuery(users, limit, offset);
      err := None;
    }

    /**
     * `SearchUsersWithRank`: at most ten rows whose username matches
     * `%query%`, by rating descending, each ranked by `ZCOUNT` when Redis is
     * there and by `RANK()` otherwise.
     */
    method SearchUsersWithRank(query: string, dbFault: bool) returns (results: seq<UserWithRank>, err: Option<DbError>)
      requires Valid()
      ensures dbFault ==> err == Some(Failure) && results == []
      ensures !dbFault ==> err.None?
      ensures |results| <= SearchLimit
      ensures forall i :: 0 <= i < |results| ==>
                results[i].user.id in users && users[results[i].user.id] == results[i].user &&
                Sql.Like(results[i].user.username, Sql.Pattern(query))
      ensures forall i, j :: 0 <= i < j < |results| ==>
                results[i].user.rating >= results[j].user.rating && results[i].user.id != results[j].user.id
      ensures !dbFault ==>
                forall id ::
                  (id in users && Sql.Like(users[id].username, Sql.Pattern(query)) &&
                   forall i :: 0 <= i < |results| ==> results[i].user.id != id) ==>
                  |results| == SearchLimit && users[id].rating <= results[SearchLimit - 1].user.rating
      ensures cacheAvailable ==> forall i :: 0 <= i < |results| ==>
                results[i].rank == ZSet.ZCount(cache, results[i].user.rating) + 1
      ensures !cacheAvailable ==> forall i :: 0 <= i < |results| ==>
                results[i].rank == SqlRank(users, results[i].user.rating)
    {
      if dbFault {
        return [], Some(Failure);
      }
      var found := Sql.FindLike(users, Sql.Pattern(query), SearchLimit);
      err := None;
      if !cacheAvailable {
        results := RankBySql(users, found);
      } else {
        results := RankByCache(cache, found);
      }
    }
  }
}
