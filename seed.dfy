/**
 * The seeding program: it generates users with consecutive ids, padded
 * usernames and drawn ratings, and hands them to the database in batches of
 * 500. The random draws are a parameter; the batch insert is a sink whose
 * one failing call, if any, is a parameter as well.
 */
module Seed {
  import opened Models
  import opened Text
  import opened Ranking
  import opened UserRepo

  const TotalUsers := 10000
  const BatchSize := 500
  const MinRating := 100
  const MaxRating := 5000

  /** The number of values `rand.Intn(maxRating - minRating + 1)` can draw. */
  const RatingSpan := MaxRating - MinRating + 1

  /** `fmt.Sprintf("user_%05d", i)`. */
  function SeedUsername(i: nat): (r: string)
    ensures i < 100000 ==> |r| == 10
  {
    if i < 100000 then ZeroPadLength(i, 5); "user_" + ZeroPad(i, 5) else
    "user_" + ZeroPad(i, 5)
  }

  /** The user generated for id `i` from the rating draw `draw`. */
  function SeedUser(i: nat, draw: int): User {
    User(i, SeedUsername(i), draw + MinRating)
  }

  /** The users generated from a run of draws, in generation order. */
  function Generated(draws: seq<int>): seq<User> {
    seq(|draws|, k requires 0 <= k < |draws| => SeedUser(k + 1, draws[k]))
  }

  /** The draws lie in the range `rand.Intn` gives. */
  predicate Drawn(draws: seq<int>) {
    forall k :: 0 <= k < |draws| ==> 0 <= draws[k] < RatingSpan
  }

  /** All batches one after the other. */
  function Flatten(batches: seq<seq<User>>): seq<User>
    decreases |batches|
  {
    if batches == [] then [] else Flatten(batches[..|batches| - 1]) + batches[|batches| - 1]
  }

  lemma FlattenAppend(batches: seq<seq<User>>, b: seq<User>)
    ensures Flatten(batches + [b]) == Flatten(batches) + b
  {
    assert (batches + [b])[..|batches|] == batches;
  }

  /** Distinct ids give distinct usernames, so the UNIQUE column never rejects a seed row. */
  lemma SeedUsernameInjective(i: nat, j: nat)
    requires SeedUsername(i) == SeedUsername(j)
    ensures i == j
  {
    assert ZeroPad(i, 5) == SeedUsername(i)[5..];
    assert ZeroPad(j, 5) == SeedUsername(j)[5..];
    ZeroPadInjective(i, j, 5);
  }

  /** A seed username holds no colon, so its member key decodes back. */
  lemma SeedUsernameNoColon(i: nat)
    ensures ':' !in SeedUsername(i)
  {
    ZeroPadValue(i, 5);
    var s := SeedUsername(i);
    forall k | 0 <= k < |s| ensures s[k] != ':' {
      if k >= 5 {
        assert s[k] == ZeroPad(i, 5)[k - 5];
      }
    }
  }

  /**
   * The generated users have ids 1, 2, ... in increasing order, pairwise
   * distinct usernames and ratings in [100, 5000].
   */
  lemma GeneratedRows(draws: seq<int>)
    requires Drawn(draws)
    ensures forall k :: 0 <= k < |draws| ==> Generated(draws)[k].id == k + 1
    ensures forall k, l :: 0 <= k < l < |draws| ==> Generated(draws)[k].username != Generated(draws)[l].username
    ensures forall k :: 0 <= k < |draws| ==> MinRating <= Generated(draws)[k].rating <= MaxRating
    ensures forall k :: 0 <= k < |draws| ==> ':' !in Generated(draws)[k].username
  {
    forall k | 0 <= k < |draws| ensures ':' !in Generated(draws)[k].username {
      SeedUsernameNoColon(k + 1);
    }
    forall k, l | 0 <= k < l < |draws| ensures Generated(draws)[k].username != Generated(draws)[l].username {
      if SeedUsername(k + 1) == SeedUsername(l + 1) {
        SeedUsernameInjective(k + 1, l + 1);
      }
    }
  }

  /** The table holding the given rows, each under its own id; a later row wins. */
  function TableOf(rows: seq<User>): map<int, User>
    decreases |rows|
  {
    if rows == [] then map[] else TableOf(rows[..|rows| - 1])[rows[|rows| - 1].id := rows[|rows| - 1]]
  }

  /** Rows numbered 1, 2, ... fill ids 1 to their count, each holding its row. */
  lemma {:induction false} TableOfNumbered(rows: seq<User>)
    requires forall k :: 0 <= k < |rows| ==> rows[k].id == k + 1
    ensures forall id :: id in TableOf(rows) <==> 1 <= id <= |rows|
    ensures forall id :: id in TableOf(rows) ==> TableOf(rows)[id] == rows[id - 1]
    ensures |TableOf(rows)| == |rows|
    decreases |rows|
  {
    if rows != [] {
      var init := rows[..|rows| - 1];
      TableOfNumbered(init);
      assert |rows| !in TableOf(init);
    }
  }

  /**
   * Numbered rows with pairwise distinct usernames make a valid table that
   * they list exactly once.
   */
  lemma NumberedTableValid(rows: seq<User>)
    requires forall k :: 0 <= k < |rows| ==> rows[k].id == k + 1
    requires forall k, l :: 0 <= k < l < |rows| ==> rows[k].username != rows[l].username
    ensures TableValid(TableOf(rows)) && Enumerates(rows, TableOf(rows))
  {
    TableOfNumbered(rows);
    NumberedMapValid(rows, TableOf(rows));
  }

  /** The same, for any map keyed 1 to n that holds row k - 1 under key k. */
  lemma NumberedMapValid(rows: seq<User>, users: map<int, User>)
    requires forall k :: 0 <= k < |rows| ==> rows[k].id == k + 1
    requires forall k, l :: 0 <= k < l < |rows| ==> rows[k].username != rows[l].username
    requires forall id :: id in users <==> 1 <= id <= |rows|
    requires forall id :: id in users ==> users[id] == rows[id - 1]
    requires |users| == |rows|
    ensures TableValid(users) && Enumerates(rows, users)
  {
    forall a, b | a in users && b in users && users[a].username == users[b].username ensures a == b {
      assert users[a] == rows[a - 1] && users[b] == rows[b - 1];
    }
  }

  /** The table the seed leaves behind. */
  function SeedTable(draws: seq<int>): map<int, User> {
    TableOf(Generated(draws))
  }

  /**
   * The seeded table satisfies the repository's table invariant, its members
   * decode back, and the generated sequence lists it exactly once.
   */
  lemma SeedTableValid(draws: seq<int>)
    requires Drawn(draws) && |draws| <= TotalUsers
    ensures TableValid(SeedTable(draws)) && CleanTable(SeedTable(draws))
    ensures Enumerates(Generated(draws), SeedTable(draws))
    ensures forall id :: id in SeedTable(draws) <==> 1 <= id <= |draws|
  {
    var rows := Generated(draws);
    GeneratedRows(draws);
    NumberedTableValid(rows);
    TableOfNumbered(rows);
    forall id | id in TableOf(rows) ensures ':' !in TableOf(rows)[id].username && IsInt64(id) {
      assert TableOf(rows)[id] == rows[id - 1];
    }
  }

  /**
   * `insertBatch`, as a sink: the batch joins the inserts made so far, and
   * the call fails when it is the one numbered `failAt` (counting from 0).
   */
  method InsertBatch(calls: seq<seq<User>>, batch: seq<User>, failAt: Option<nat>) returns (after: seq<seq<User>>, failed: bool)
    ensures after == calls + [batch]
    ensures Flatten(after) == Flatten(calls) + batch
    ensures failed <==> failAt == Some(|calls|)
  {
    FlattenAppend(calls, batch);
    after := calls + [batch];
    failed := failAt == Some(|calls|);
  }

  /**
   * `seedUsers`: in pass `i`, take the user generated for id `i`, append it
   * to the buffer, and flush the buffer when it holds 500 users; flush once
   * more at the end when the buffer is not empty. The first failing insert
   * ends the run with its error.
   */
  method SeedUsers(draws: seq<int>, failAt: Option<nat>) returns (calls: seq<seq<User>>, err: Option<DbError>)
    requires Drawn(draws) && |draws| == TotalUsers
    ensures forall j :: 0 <= j < |calls| ==> 0 < |calls[j]| <= BatchSize
    ensures forall j :: 0 <= j < |calls| - 1 ==> |calls[j]| == BatchSize
    ensures err.Some? <==> failAt.Some? && failAt.value < |calls|
    ensures err.Some? ==> err == Some(Failure) && failAt == Some(|calls| - 1)
    ensures |Flatten(calls)| <= |draws| && Flatten(calls) == Generated(draws)[..|Flatten(calls)|]
    ensures err.None? ==> Flatten(calls) == Generated(draws)
    ensures err.None? ==> |calls| == TotalUsers / BatchSize && forall j :: 0 <= j < |calls| ==> |calls[j]| == BatchSize
  {
    calls, err := InsertAll(Generated(draws), failAt);
  }

  /** The buffering loop of `seedUsers`, over the users in generation order. */
  method InsertAll(gen: seq<User>, failAt: Option<nat>) returns (calls: seq<seq<User>>, err: Option<DbError>)
    ensures forall j :: 0 <= j < |calls| ==> 0 < |calls[j]| <= BatchSize
    ensures forall j :: 0 <= j < |calls| - 1 ==> |calls[j]| == BatchSize
    ensures err.Some? <==> failAt.Some? && failAt.value < |calls|
    ensures err.Some? ==> err == Some(Failure) && failAt == Some(|calls| - 1)
    ensures |Flatten(calls)| <= |gen| && Flatten(calls) == gen[..|Flatten(calls)|]
    ensures err.None? ==> Flatten(calls) == gen
    ensures err.None? && |gen| % BatchSize == 0 ==>
              |calls| == |gen| / BatchSize && forall j :: 0 <= j < |calls| ==> |calls[j]| == BatchSize
  {
    calls := [];
    var failed := false;
    var buffer: seq<User> := [];
    var i := 1;
    while i <= |gen| && !failed
      invariant 1 <= i <= |gen| + 1
      invariant |buffer| < BatchSize
      invariant Flatten(calls) + buffer == gen[..i - 1]
      invariant failed ==> buffer == []
      invariant |Flatten(calls)| == BatchSize * |calls|
      invariant forall j :: 0 <= j < |calls| ==> |calls[j]| == BatchSize
      invariant failed <==> failAt.Some? && failAt.value < |calls|
      invariant failed ==> failAt == Some(|calls| - 1)
    {
      var user := gen[i - 1];
      assert gen[..i] == gen[..i - 1] + [user];
      buffer := buffer + [user];
      if |buffer| == BatchSize {
        calls, failed := InsertBatch(calls, buffer, failAt);
        buffer := [];
      }
      i := i + 1;
    }
    if failed {
      err := Some(Failure);
    } else {
      assert gen[..|gen|] == gen;
      calls, err := FlushRest(gen, calls, buffer, failAt);
    }
  }

  /** The flush after the loop of `seedUsers`: the buffer, when not empty, is one last batch. */
  method FlushRest(gen: seq<User>, calls: seq<seq<User>>, buffer: seq<User>, failAt: Option<nat>)
    returns (all: seq<seq<User>>, err: Option<DbError>)
    requires |buffer| < BatchSize && Flatten(calls) + buffer == gen
    requires |Flatten(calls)| == BatchSize * |calls|
    requires forall j :: 0 <= j < |calls| ==> |calls[j]| == BatchSize
    requires !(failAt.Some? && failAt.value < |calls|)
    ensures forall j :: 0 <= j < |all| ==> 0 < |all[j]| <= BatchSize
    ensures forall j :: 0 <= j < |all| - 1 ==> |all[j]| == BatchSize
    ensures err.Some? <==> failAt.Some? && failAt.value < |all|
    ensures err.Some? ==> err == Some(Failure) && failAt == Some(|all| - 1)
    ensures Flatten(all) == gen
    ensures |gen| % BatchSize == 0 ==> all == calls
    ensures |gen| / BatchSize == |calls|
  {
    DivideBatches(|gen|, |calls|, |buffer|);
    all := calls;
    var failed := false;
    if |buffer| > 0 {
      all, failed := InsertBatch(calls, buffer, failAt);
    }
    err := if failed then Some(Failure) else None;
  }

  /** `n` users in `c` full batches and `b` left over mean `b` is `n % 500` and `c` is `n / 500`. */
  lemma DivideBatches(n: int, c: int, b: int)
    requires 0 <= c && 0 <= b < BatchSize && n == BatchSize * c + b
    ensures n % BatchSize == b && n / BatchSize == c
  {
  }
}
