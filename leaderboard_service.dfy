/**
 * The leaderboard service: the checks it makes on its arguments before it
 * hands a call to the repository, and the cap it puts on page sizes.
 */
module Leaderboard {
  import opened Models
  import opened Text
  import ZSet
  import Member
  import opened UserRepo

  /** The errors the service returns: its own three, or the repository's. */
  datatype ServiceError =
    | UsernameRequired   // "username is required"
    | NegativeRating     // "rating cannot be negative"
    | LimitNotPositive   // "limit must be greater than 0"
    | Db(cause: DbError)

  /** The largest page the service asks the repository for. */
  const MaxLimit := 100

  /** A repository error, passed through as the service's error. */
  function Lift(err: Option<DbError>): (r: Option<ServiceError>)
    ensures r.None? <==> err.None?
    ensures r.Some? ==> r.value == Db(err.value)
  {
    match err
    case None => None
    case Some(e) => Some(Db(e))
  }

  /** The page size forwarded for an accepted `limit`: never more than 100. */
  function ClampLimit(limit: int): (r: int)
    requires limit >= 1
    ensures 1 <= r <= MaxLimit
    ensures r <= limit
    ensures limit <= MaxLimit ==> r == limit
  {
    if limit > MaxLimit then MaxLimit else limit
  }

  /**
   * The check `GetUserWithRank` makes before it delegates: an empty username
   * is refused. The lookup it delegates to is not part of the repository.
   */
  function UserWithRankGuard(username: string): (err: Option<ServiceError>)
    ensures err.Some? <==> username == ""
    ensures err.Some? ==> err.value == UsernameRequired
  {
    if username == "" then Some(UsernameRequired) else None
  }

  class LeaderboardService {
    const repo: Repository

    constructor (r: Repository)
      ensures repo == r
    {
      repo := r;
    }

    /**
     * `CreateUser`: rejects an empty username, then a negative rating, and
     * otherwise creates the row with the given username and rating and an id
     * chosen by the database.
     */
    method CreateUser(username: string, rating: int, nextId: int, dbFault: bool)
      returns (user: Option<User>, err: Option<ServiceError>)
      requires repo.Valid()
      modifies repo
      ensures repo.Valid() && (old(repo.Mirrored()) ==> repo.Mirrored())
      ensures username == "" ==> err == Some(UsernameRequired)
      ensures username != "" && rating < 0 ==> err == Some(NegativeRating)
      ensures username == "" || rating < 0 ==> unchanged(repo)
      ensures user.None? <==> err.Some?
      ensures username != "" && rating >= 0 && dbFault ==> err == Some(Db(Failure))
      ensures user.Some? ==> user.value == User(nextId, username, rating)
      ensures err.Some? ==> unchanged(repo)
      ensures user.Some? ==> repo.users == old(repo.users)[nextId := user.value]
      ensures user.Some? ==>
                repo.cache == if repo.cacheAvailable then ZSet.Add(old(repo.cache), Member.Of(user.value), rating)
                              else old(repo.cache)
      ensures username != "" && rating >= 0 && !dbFault ==>
                (user.Some? <==> nextId !in old(repo.users) && !UsernameTaken(old(repo.users), username))
    {
      if username == "" {
        return None, Some(UsernameRequired);
      }
      if rating < 0 {
        return None, Some(NegativeRating);
      }
      var created, e := repo.Create(User(0, username, rating), nextId, dbFault);
      if e.Some? {
        return None, Lift(e);
      }
      user, err := Some(created), None;
    }

    /** `UpdateRating`: rejects a negative rating, otherwise passes both ids through. */
    method UpdateRating(userId: int, newRating: int, readFault: bool, writeFault: bool)
      returns (err: Option<ServiceError>)
      requires repo.Valid()
      modifies repo
      ensures repo.Valid() && (old(repo.Mirrored()) ==> repo.Mirrored())
      ensures newRating < 0 ==> err == Some(NegativeRating) && unchanged(repo)
      ensures newRating >= 0 ==>
                (err.None? <==> !readFault && userId in old(repo.users) && !writeFault)
      ensures newRating >= 0 && !readFault && userId !in old(repo.users) ==> err == Some(Db(NotFound))
      ensures err.Some? ==> unchanged(repo)
      ensures err.None? ==> repo.users == old(repo.users)[userId := old(repo.users)[userId].(rating := newRating)]
      ensures err.None? ==>
                repo.cache == if repo.cacheAvailable then ZSet.Add(old(repo.cache), Member.Of(old(repo.users)[userId]), newRating)
                              else old(repo.cache)
    {
      if newRating < 0 {
        return Some(NegativeRating);
      }
      var e := repo.UpdateRating(userId, newRating, readFault, writeFault);
      err := Lift(e);
      if e.None? {
        ghost var row := old(repo.users)[userId];
        assert repo.users == old(repo.users)[userId := row.(rating := newRating)];
        assert repo.cache == if repo.cacheAvailable then ZSet.Add(old(repo.cache), Member.Of(row), newRating) else old(repo.cache);
      }
    }

    /**
     * `GetLeaderboard`: rejects a limit that is not positive; otherwise asks
     * the repository for at most 100 rows from `offset` on.
     */
    method GetLeaderboard(limit: int, offset: int, dbFault: bool, rangeFault: bool)
      returns (rows: seq<UserWithRank>, err: Option<ServiceError>)
      requires repo.Valid() && IsInt64(limit) && IsInt64(offset)
      ensures limit <= 0 ==> err == Some(LimitNotPositive) && rows == []
      ensures limit > 0 && repo.cacheAvailable ==>
                err.None? &&
                rows == if rangeFault then []
                        else CacheWindow(repo.cache, offset, ClampLimit(limit))
      ensures limit > 0 && !repo.cacheAvailable ==>
                err == Lift(SqlError(dbFault, ClampLimit(limit), offset)) &&
                (err.None? ==> SqlWindow(repo.users, rows, ClampLimit(limit), offset))
      ensures limit > 0 && 0 <= offset <= MaxInt64 - MaxLimit ==> |rows| <= MaxLimit
      ensures limit > 0 && 0 <= offset && |repo.cache| <= MaxInt64 ==> |rows| <= MaxLimit
    {
      if limit <= 0 {
        return [], Some(LimitNotPositive);
      }
      var forwarded := ClampLimit(limit);
      var e, lookups;
      rows, e, lookups := repo.GetLeaderboard(forwarded, offset, dbFault, rangeFault);
      err := Lift(e);
    }
  }
}
