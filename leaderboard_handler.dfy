/**
 * The HTTP handlers: how they read the query parameters and the request
 * body, which requests they reject before calling a service, and which
 * status code each outcome gets. Request decoding is a parameter (the
 * decoded body, or `None` when JSON decoding fails); writing the response
 * body is not modelled.
 */
module Handlers {
  import opened Models
  import opened Text
  import ZSet
  import Member
  import opened UserRepo
  import opened Leaderboard
  import opened Simulation

  const StatusOK := 200
  const StatusCreated := 201
  const StatusNoContent := 204
  const StatusBadRequest := 400
  const StatusInternalServerError := 500

  /** The page size used when `limit` is missing, malformed or not positive. */
  const DefaultLimit := 50

  /** The decoded body of a create request. */
  datatype CreateRequest = CreateRequest(username: string, rating: int)

  /** The `limit` query parameter: a positive integer, or 50. */
  function ParseLimit(param: string): (limit: int)
    ensures 1 <= limit && IsInt64(limit)
  {
    var r := Atoi(param);
    if r.Parsed? && r.value > 0 then r.value else DefaultLimit
  }

  /** Any positive limit written in decimal is read back as itself. */
  lemma ParseLimitFormat(n: int)
    requires 1 <= n && IsInt64(n)
    ensures ParseLimit(FormatInt(n)) == n
  {
    AtoiFormatInt(n);
  }

  /** A limit that is missing or not positive becomes the default. */
  lemma ParseLimitDefault(n: int)
    requires n <= 0 && IsInt64(n)
    ensures ParseLimit(FormatInt(n)) == DefaultLimit
    ensures ParseLimit("") == DefaultLimit
  {
    AtoiFormatInt(n);
  }

  /** A limit `strconv.Atoi` cannot read, such as `abc`, `12x` or one beyond 64 bits, becomes the default. */
  lemma ParseLimitInvalid(param: string)
    requires Atoi(param).Invalid?
    ensures ParseLimit(param) == DefaultLimit
  {
  }

  /** A limit with a character other than a digit past an optional sign becomes the default. */
  lemma ParseLimitMalformed(param: string, i: int)
    requires 0 <= i < |param| && !IsDigit(param[i]) && (i > 0 || (param[0] != '+' && param[0] != '-'))
    ensures ParseLimit(param) == DefaultLimit
  {
    AtoiRejects(param, i);
  }

  /** `abc` and `12x` are not numbers, so they give the default limit. */
  lemma ParseLimitExamples()
    ensures ParseLimit("abc") == DefaultLimit && ParseLimit("12x") == DefaultLimit
  {
    ParseLimitMalformed("abc", 0);
    ParseLimitMalformed("12x", 2);
  }

  /**
   * The `offset` query parameter: the value `strconv.Atoi` returns, with its
   * error ignored, raised to 0 when negative.
   */
  function ParseOffset(param: string): (offset: int)
    ensures 0 <= offset && IsInt64(offset)
  {
    var v := Atoi(param).value;
    if v < 0 then 0 else v
  }

  /** A decimal offset is read back as itself when it is not negative, and as 0 otherwise. */
  lemma ParseOffsetFormat(n: int)
    requires IsInt64(n)
    ensures ParseOffset(FormatInt(n)) == if n < 0 then 0 else n
    ensures ParseOffset("") == 0
  {
    AtoiFormatInt(n);
  }

  /**
   * Because the range error of `strconv.Atoi` is ignored, an offset with too
   * many digits is read as the largest 64-bit integer.
   */
  lemma ParseOffsetOverflow(s: string)
    requires s != [] && AllDigits(s) && ParseDigits(s) > MaxInt64
    ensures ParseOffset(s) == MaxInt64
  {
    assert IsDigit(s[0]);
  }

  /**
   * An offset such as `12x` is a syntax error, and the 0 that comes with it
   * is used: the page starts at the top.
   */
  lemma ParseOffsetSyntaxError(s: string, i: int)
    requires 0 <= i < |s| && i < 20 && !IsDigit(s[i]) && (i > 0 || (s[0] != '+' && s[0] != '-'))
    ensures ParseOffset(s) == 0
  {
    AtoiSyntaxError(s, i);
  }

  /**
   * Digits worth more than 2^64 - 1 are a range error even when a non-digit
   * follows them, so such an offset is read as the largest 64-bit integer.
   */
  lemma ParseOffsetOverflowFirst(d: string, t: string)
    requires d != [] && AllDigits(d) && ParseDigits(d) > MaxUint64
    requires t == [] || !IsDigit(t[0])
    ensures ParseOffset(d + t) == MaxInt64
  {
    AtoiOverflowFirst(d, t);
  }

  /** The `id` query parameter of `UpdateRating`: missing or not an integer means no id. */
  function ParseId(param: string): (id: Option<int>)
    ensures param == "" ==> id.None?
    ensures id.Some? ==> IsInt64(id.value)
  {
    if param == "" then None
    else
      var r := Atoi(param);
      if r.Parsed? then Some(r.value) else None
  }

  /** Every id written in decimal is read back as itself. */
  lemma ParseIdFormat(n: int)
    requires IsInt64(n)
    ensures ParseId(FormatInt(n)) == Some(n)
  {
    AtoiFormatInt(n);
  }

  /** A character other than a digit, past an optional sign, means no id. */
  lemma ParseIdRejects(param: string, i: int)
    requires 0 <= i < |param| && !IsDigit(param[i]) && (i > 0 || (param[0] != '+' && param[0] != '-'))
    ensures ParseId(param).None?
  {
    AtoiRejects(param, i);
  }

  /** `GetUserWithRank` refuses an empty username with 400 before any lookup. */
  function GetUserWithRankGuard(username: string): (status: Option<int>)
    ensures status.Some? <==> username == ""
    ensures status.Some? ==> status.value == StatusBadRequest
  {
    if username == "" then Some(StatusBadRequest) else None
  }

  class LeaderboardHandler {
    const service: LeaderboardService
    const simulation: SimulationService

    /** `NewLeaderboardHandler`. */
    constructor (l: LeaderboardService, s: SimulationService)
      ensures service == l && simulation == s
    {
      service := l;
      simulation := s;
    }

    /** `StartSimulation`: starts the simulation and answers 200. */
    method StartSimulation() returns (status: int)
      requires simulation.Valid()
      modifies simulation
      ensures simulation.Valid() && simulation.running
      ensures status == StatusOK
    {
      simulation.Start();
      status := StatusOK;
    }

    /** `StopSimulation`: stops the simulation and answers 200. */
    method StopSimulation() returns (status: int)
      requires simulation.Valid()
      modifies simulation, simulation.cancel
      ensures simulation.Valid() && !simulation.running
      ensures status == StatusOK
    {
      simulation.Stop();
      status := StatusOK;
    }

    /** `GetSimulationStatus`: "running" exactly when the simulation runs. */
    method GetSimulationStatus() returns (status: string)
      ensures status == "running" <==> simulation.running
      ensures status == "running" || status == "stopped"
    {
      var r := simulation.IsRunning();
      status := if r then "running" else "stopped";
    }

    /**
     * `CreateUser`: an undecodable body gives 400; any service error gives
     * 500; a created user gives 201.
     */
    method CreateUser(body: Option<CreateRequest>, nextId: int, dbFault: bool)
      returns (status: int, user: Option<User>)
      requires service.repo.Valid()
      modifies service.repo
      ensures service.repo.Valid() && (old(service.repo.Mirrored()) ==> service.repo.Mirrored())
      ensures body.None? ==> status == StatusBadRequest && user.None? && unchanged(service.repo)
      ensures body.Some? ==> (status == StatusCreated <==> user.Some?)
      ensures body.Some? && user.None? ==> status == StatusInternalServerError
      ensures body.Some? ==>
                (user.Some? <==> body.value.username != "" && body.value.rating >= 0 && !dbFault &&
                                 nextId !in old(service.repo.users) &&
                                 !UsernameTaken(old(service.repo.users), body.value.username))
      ensures user.Some? ==> user.value == User(nextId, body.value.username, body.value.rating)
      ensures status != StatusCreated ==> unchanged(service.repo)
      ensures user.Some? ==> service.repo.users == old(service.repo.users)[nextId := user.value]
      ensures user.Some? ==>
                service.repo.cache ==
                  if service.repo.cacheAvailable then ZSet.Add(old(service.repo.cache), Member.Of(user.value), user.value.rating)
                  else old(service.repo.cache)
    {
      if body.None? {
        return StatusBadRequest, None;
      }
      var err;
      user, err := service.CreateUser(body.value.username, body.value.rating, nextId, dbFault);
      if err.Some? {
        return StatusInternalServerError, None;
      }
      status := StatusCreated;
    }

    /**
     * `UpdateRating`: a missing or malformed id and an undecodable body each
     * give 400 without calling the service; a service error gives 500, and
     * success 204.
     */
    method UpdateRating(idParam: string, body: Option<int>, readFault: bool, writeFault: bool)
      returns (status: int)
      requires service.repo.Valid()
      modifies service.repo
      ensures service.repo.Valid() && (old(service.repo.Mirrored()) ==> service.repo.Mirrored())
      ensures ParseId(idParam).None? || body.None? ==> status == StatusBadRequest && unchanged(service.repo)
      ensures ParseId(idParam).Some? && body.Some? ==>
                (status == StatusNoContent <==>
                   body.value >= 0 && !readFault && ParseId(idParam).value in old(service.repo.users) && !writeFault)
      ensures ParseId(idParam).Some? && body.Some? && status != StatusNoContent ==>
                status == StatusInternalServerError && unchanged(service.repo)
      ensures status == StatusNoContent ==>
                var id := ParseId(idParam).value;
                service.repo.users == old(service.repo.users)[id := old(service.repo.users)[id].(rating := body.value)]
      ensures status == StatusNoContent ==>
                var id := ParseId(idParam).value;
                service.repo.cache ==
                  if service.repo.cacheAvailable then ZSet.Add(old(service.repo.cache), Member.Of(old(service.repo.users)[id]), body.value)
                  else old(service.repo.cache)
    {
      var id := ParseId(idParam);
      if id.None? || body.None? {
        return StatusBadRequest;
      }
      var err := service.UpdateRating(id.value, body.value, readFault, writeFault);
      status := if err.Some? then StatusInternalServerError else StatusNoContent;
    }

    /**
     * `GetLeaderboard`: the parameters are defaulted and clamped so that the
     * service never rejects them; the only failure is a database error on
     * the SQL path, which gives 500.
     */
    method GetLeaderboard(limitParam: string, offsetParam: string, dbFault: bool, rangeFault: bool)
      returns (status: int, rows: seq<UserWithRank>)
      requires service.repo.Valid()
      ensures status == StatusOK || status == StatusInternalServerError
      ensures status == StatusInternalServerError <==> !service.repo.cacheAvailable && dbFault
      ensures service.repo.cacheAvailable && !rangeFault ==>
                rows == CacheWindow(service.repo.cache, ParseOffset(offsetParam), ClampLimit(ParseLimit(limitParam)))
      ensures ParseOffset(offsetParam) <= MaxInt64 - MaxLimit ==> |rows| <= MaxLimit
      ensures |service.repo.cache| <= MaxInt64 ==> |rows| <= MaxLimit
      ensures status == StatusOK && !service.repo.cacheAvailable ==>
                SqlWindow(service.repo.users, rows, ClampLimit(ParseLimit(limitParam)), ParseOffset(offsetParam))
    {
      var limit := ParseLimit(limitParam);
      var offset := ParseOffset(offsetParam);
      var err;
      rows, err := service.GetLeaderboard(limit, offset, dbFault, rangeFault);
      status := if err.Some? then StatusInternalServerError else StatusOK;
    }
  }
}
