/**
 * The rating simulation: a start/stop switch guarding one background loop,
 * and the loop itself, which on every tick gives a random user a random
 * rating. The ticker, the goroutine and the mutex are not modelled; the
 * ticks the loop sees before it is cancelled are a parameter.
 */
module Simulation {
  import opened Models
  import opened UserRepo
  import opened Ranking
  import ZSet
  import Member

  /** The seeded ids run from 1 to 10000. */
  const MaxUserId := 10000
  const MinRating := 100
  const MaxRating := 5000

  /** What one tick asks for: a user id and the rating to give it. */
  datatype Tick = Tick(userId: int, rating: int)

  /** A tick from the draws `rand.Intn(10000)` and `rand.Intn(4901)`. */
  function TickOf(idDraw: int, ratingDraw: int): (t: Tick)
    requires 0 <= idDraw < MaxUserId && 0 <= ratingDraw < MaxRating - MinRating + 1
    ensures 1 <= t.userId <= MaxUserId
    ensures MinRating <= t.rating <= MaxRating
  {
    Tick(idDraw + 1, ratingDraw + MinRating)
  }

  /** Every id and every rating in range is drawn by exactly one pair of draws. */
  lemma TickOfOnto(userId: int, rating: int)
    requires 1 <= userId <= MaxUserId && MinRating <= rating <= MaxRating
    ensures exists a, b :: 0 <= a < MaxUserId && 0 <= b < MaxRating - MinRating + 1 && TickOf(a, b) == Tick(userId, rating)
    ensures forall a, b :: 0 <= a < MaxUserId && 0 <= b < MaxRating - MinRating + 1 && TickOf(a, b) == Tick(userId, rating) ==>
              a == userId - 1 && b == rating - MinRating
  {
    assert TickOf(userId - 1, rating - MinRating) == Tick(userId, rating);
  }

  /** One tick together with the database faults its update meets. */
  datatype Attempt = Attempt(tick: Tick, readFault: bool, writeFault: bool)

  /** The draws of every attempt lie in the ranges `rand.Intn` gives. */
  predicate Drawn(attempts: seq<Attempt>) {
    forall i :: 0 <= i < |attempts| ==>
      1 <= attempts[i].tick.userId <= MaxUserId && MinRating <= attempts[i].tick.rating <= MaxRating
  }

  /**
   * The table after a run of attempts: each one that finds its row and meets
   * no fault sets that row's rating; a failed one changes nothing, and the
   * loop goes on with the next.
   */
  function Replay(users: map<int, User>, attempts: seq<Attempt>): (r: map<int, User>)
    ensures forall id :: id in r <==> id in users
    decreases |attempts|
  {
    if attempts == [] then users
    else Apply(Replay(users, attempts[..|attempts| - 1]), attempts[|attempts| - 1])
  }

  /**
   * An attempt fails when the row cannot be read, its id is not in the table
   * or the write fails; the loop then logs one line and moves on.
   */
  predicate Fails(users: map<int, User>, a: Attempt) {
    a.readFault || a.tick.userId !in users || a.writeFault
  }

  /** The table after one attempt. */
  function Apply(users: map<int, User>, a: Attempt): map<int, User> {
    if !Fails(users, a) then
      users[a.tick.userId := users[a.tick.userId].(rating := a.tick.rating)]
    else users
  }

  /** How many attempts of a run fail, each judged against the table replayed before it. */
  function Failures(users: map<int, User>, attempts: seq<Attempt>): nat
    decreases |attempts|
  {
    if attempts == [] then 0
    else
      var init := attempts[..|attempts| - 1];
      Failures(users, init) + if Fails(Replay(users, init), attempts[|attempts| - 1]) then 1 else 0
  }

  /**
   * The sorted set after one attempt on the table `users`: a successful
   * update ZADDs the row's member with the new rating; a failed one leaves
   * the set alone.
   */
  function ApplyCache(users: map<int, User>, cache: seq<ZSet.Entry>, a: Attempt): seq<ZSet.Entry> {
    if !Fails(users, a) then ZSet.Add(cache, Member.Of(users[a.tick.userId]), a.tick.rating) else cache
  }

  /** The sorted set after a run of attempts, each applied to the table replayed before it. */
  function ReplayCache(users: map<int, User>, cache: seq<ZSet.Entry>, attempts: seq<Attempt>): seq<ZSet.Entry>
    decreases |attempts|
  {
    if attempts == [] then cache
    else
      var init := attempts[..|attempts| - 1];
      ApplyCache(Replay(users, init), ReplayCache(users, cache, init), attempts[|attempts| - 1])
  }

  /**
   * Ticks keep the cache a mirror: when the set starts as the image of the
   * table, the replayed set is the image of the replayed table.
   */
  lemma {:induction false} ReplayMirrors(users: map<int, User>, cache: seq<ZSet.Entry>, attempts: seq<Attempt>)
    requires TableValid(users) && ZSet.Valid(cache) && ZSet.MapOf(cache) == Image(users)
    ensures TableValid(Replay(users, attempts)) && ZSet.Valid(ReplayCache(users, cache, attempts))
    ensures ZSet.MapOf(ReplayCache(users, cache, attempts)) == Image(Replay(users, attempts))
    decreases |attempts|
  {
    if attempts != [] {
      var init := attempts[..|attempts| - 1];
      ReplayMirrors(users, cache, init);
      ApplyMirrors(Replay(users, init), ReplayCache(users, cache, init), attempts[|attempts| - 1]);
    }
  }

  /**
   * The table `u`, the set `c` and the error count `e` are what the
   * attempts `done` leave behind from `users` and `cache`.
   */
  ghost predicate Replayed(users: map<int, User>, cache: seq<ZSet.Entry>, available: bool, done: seq<Attempt>,
                           u: map<int, User>, c: seq<ZSet.Entry>, e: int)
  {
    u == Replay(users, done) &&
    c == (if available then ReplayCache(users, cache, done) else cache) &&
    e == Failures(users, done)
  }

  /**
   * One turn of the run loop: if the table, the set and the error count
   * were the replay of the first `i` attempts and the tick does what
   * `Apply`, `ApplyCache` and `Fails` say, they are the replay of the first
   * `i + 1`.
   */
  lemma RunStep(users: map<int, User>, cache: seq<ZSet.Entry>, attempts: seq<Attempt>, i: int, available: bool,
                users0: map<int, User>, cache0: seq<ZSet.Entry>, errors0: int,
                users1: map<int, User>, cache1: seq<ZSet.Entry>, errors1: int)
    requires 0 <= i < |attempts|
    requires Replayed(users, cache, available, attempts[..i], users0, cache0, errors0)
    requires users1 == Apply(users0, attempts[i])
    requires cache1 == if available then ApplyCache(users0, cache0, attempts[i]) else cache0
    requires errors1 == errors0 + if Fails(users0, attempts[i]) then 1 else 0
    ensures Replayed(users, cache, available, attempts[..i + 1], users1, cache1, errors1)
  {
    ReplayStep(users, cache, attempts, i);
  }

  /** One attempt keeps the set the image of the table. */
  lemma ApplyMirrors(users: map<int, User>, cache: seq<ZSet.Entry>, a: Attempt)
    requires TableValid(users) && ZSet.Valid(cache) && ZSet.MapOf(cache) == Image(users)
    ensures TableValid(Apply(users, a)) && ZSet.Valid(ApplyCache(users, cache, a))
    ensures ZSet.MapOf(ApplyCache(users, cache, a)) == Image(Apply(users, a))
  {
    if !Fails(users, a) {
      var id := a.tick.userId;
      RerateTable(users, id, a.tick.rating);
      ImageInsert(users, users[id].(rating := a.tick.rating));
      ZSet.AddValid(cache, Member.Of(users[id]), a.tick.rating);
    }
  }

  /** Replaying one more attempt applies it to the table and set replayed so far, and counts it if it fails. */
  lemma ReplayStep(users: map<int, User>, cache: seq<ZSet.Entry>, attempts: seq<Attempt>, i: int)
    requires 0 <= i < |attempts|
    ensures Replay(users, attempts[..i + 1]) == Apply(Replay(users, attempts[..i]), attempts[i])
    ensures ReplayCache(users, cache, attempts[..i + 1]) ==
              ApplyCache(Replay(users, attempts[..i]), ReplayCache(users, cache, attempts[..i]), attempts[i])
    ensures Failures(users, attempts[..i + 1]) ==
              Failures(users, attempts[..i]) + if Fails(Replay(users, attempts[..i]), attempts[i]) then 1 else 0
  {
    assert attempts[..i + 1][..i] == attempts[..i];
  }

  /** No more attempts fail than were made, and none fail when every id is present and no fault occurs. */
  lemma {:induction false} FailuresBounds(users: map<int, User>, attempts: seq<Attempt>)
    ensures Failures(users, attempts) <= |attempts|
    ensures (forall i :: 0 <= i < |attempts| ==>
               attempts[i].tick.userId in users && !attempts[i].readFault && !attempts[i].writeFault) ==>
              Failures(users, attempts) == 0
    decreases |attempts|
  {
    if attempts != [] {
      var init := attempts[..|attempts| - 1];
      assert forall i :: 0 <= i < |init| ==> init[i] == attempts[i];
      FailuresBounds(users, init);
      ReplayKeepsRows(users, init);
    }
  }

  /** A replay keeps every row, its id and its username; only ratings move. */
  lemma {:induction false} ReplayKeepsRows(users: map<int, User>, attempts: seq<Attempt>)
    ensures forall id :: id in Replay(users, attempts) <==> id in users
    ensures forall id :: id in users ==>
              Replay(users, attempts)[id].id == users[id].id &&
              Replay(users, attempts)[id].username == users[id].username
    decreases |attempts|
  {
    if attempts != [] {
      ReplayKeepsRows(users, attempts[..|attempts| - 1]);
    }
  }

  /** Ratings that start inside [100, 5000] stay there under drawn ticks. */
  lemma {:induction false} ReplayKeepsRange(users: map<int, User>, attempts: seq<Attempt>)
    requires Drawn(attempts)
    requires forall id :: id in users ==> MinRating <= users[id].rating <= MaxRating
    ensures forall id :: id in Replay(users, attempts) ==>
              MinRating <= Replay(users, attempts)[id].rating <= MaxRating
    decreases |attempts|
  {
    if attempts != [] {
      var init := attempts[..|attempts| - 1];
      assert forall i :: 0 <= i < |init| ==> init[i] == attempts[i];
      ReplayKeepsRange(users, init);
    }
  }

  /** The handle `context.WithCancel` returns; `calls` counts its invocations. */
  class CancelHandle {
    var calls: nat

    constructor ()
      ensures calls == 0
    {
      calls := 0;
    }

    method Cancel()
      modifies this
      ensures calls == old(calls) + 1
    {
      calls := calls + 1;
    }
  }

  class SimulationService {
    const repo: Repository
    var running: bool
    var cancel: CancelHandle?
    /** How many run loops have been launched. */
    ghost var launched: nat

    /** A running simulation holds a handle that has not been invoked yet. */
    ghost predicate Valid()
      reads this, cancel
    {
      running ==> cancel != null && cancel.calls == 0
    }

    /** `NewSimulationService`: stopped, with no handle. */
    constructor (r: Repository)
      ensures Valid()
      ensures repo == r && !running && cancel == null && launched == 0
    {
      repo := r;
      running := false;
      cancel := null;
      launched := 0;
    }

    /**
     * `Start`: when already running, nothing happens; otherwise a fresh
     * handle is stored, the flag is set and one run loop is launched.
     */
    method Start()
      requires Valid()
      modifies this
      ensures Valid() && running
      ensures old(running) ==> cancel == old(cancel) && launched == old(launched)
      ensures !old(running) ==> cancel != null && fresh(cancel) && launched == old(launched) + 1
    {
      if running {
        return;
      }
      var handle := new CancelHandle();
      cancel := handle;
      running := true;
      launched := launched + 1;
    }

    /**
     * `Stop`: when stopped, nothing happens; otherwise the handle is invoked
     * once and the flag cleared.
     */
    method Stop()
      requires Valid()
      modifies this, cancel
      ensures Valid() && !running
      ensures cancel == old(cancel) && launched == old(launched)
      ensures !old(running) ==> cancel == null || cancel.calls == old(cancel.calls)
      ensures old(running) ==> cancel != null && cancel.calls == 1
    {
      if !running {
        return;
      }
      cancel.Cancel();
      running := false;
    }

    /** `IsRunning`: the flag, read without changing anything. */
    method IsRunning() returns (r: bool)
      ensures r == running
    {
      r := running;
    }

    /** One tick of `run`: the update, and whether it failed and was logged. */
    method Step(a: Attempt) returns (failed: bool)
      requires repo.Valid()
      modifies repo
      ensures repo.Valid() && (old(repo.Mirrored()) ==> repo.Mirrored())
      ensures failed == Fails(old(repo.users), a)
      ensures repo.users == Apply(old(repo.users), a)
      ensures repo.cache == if repo.cacheAvailable then ApplyCache(old(repo.users), old(repo.cache), a) else old(repo.cache)
    {
      var err := repo.UpdateRating(a.tick.userId, a.tick.rating, a.readFault, a.writeFault);
      failed := err.Some?;
    }

    /**
     * `run`: one `UpdateRating` per tick, until cancelled. An error is
     * logged and the loop carries on; `errors` counts the logged lines.
     */
    method Run(attempts: seq<Attempt>) returns (errors: nat)
      requires repo.Valid() && Drawn(attempts)
      modifies repo
      ensures repo.Valid() && (old(repo.Mirrored()) ==> repo.Mirrored())
      ensures repo.users == Replay(old(repo.users), attempts)
      ensures repo.cache == if repo.cacheAvailable then ReplayCache(old(repo.users), old(repo.cache), attempts)
                            else old(repo.cache)
      ensures errors == Failures(old(repo.users), attempts)
    {
      ghost var users, cache := repo.users, repo.cache;
      errors := 0;
      var i := 0;
      assert attempts[..0] == [];
      while i < |attempts|
        invariant 0 <= i <= |attempts|
        invariant repo.Valid()
        invariant Replayed(users, cache, repo.cacheAvailable, attempts[..i], repo.users, repo.cache, errors)
      {
        ghost var users0, cache0, errors0 := repo.users, repo.cache, errors;
        var failed := Step(attempts[i]);
        if failed {
          errors := errors + 1;
        }
        RunStep(users, cache, attempts, i, repo.cacheAvailable, users0, cache0, errors0, repo.users, repo.cache, errors);
        i := i + 1;
      }
      assert attempts[..|attempts|] == attempts;
      if old(repo.Mirrored()) && repo.cacheAvailable {
        ReplayMirrors(old(repo.users), old(repo.cache), attempts);
      }
    }
  }
}
