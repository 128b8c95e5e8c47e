/**
 * What the repository's SQL statements mean on the `users` table: the
 * `LIKE` operator, a `WHERE` filter, `ORDER BY rating DESC` and GORM's
 * `First` (`ORDER BY id LIMIT 1`). The database is free to list rows of equal
 * rating in any order, so the ordering is a method that may pick any row of
 * highest rating next.
 */
module Sql {
  import opened Models
  import opened Text
  import opened Ranking
  import Sets

  // ---------------------------------------------------------------------
  // LIKE

  /**
   * PostgreSQL's `s LIKE p`: `%` matches any run of characters, `_` any
   * single character, and a backslash makes the next character literal. A
   * backslash at the very end of a pattern is taken literally here;
   * PostgreSQL rejects such a pattern, but a pattern of the form `%q%`
   * never ends in one.
   */
  predicate Like(s: string, p: string)
    ensures Plain(p) ==> (Like(s, p) <==> s == p)
    decreases |p|, |s|
  {
    assert p != [] && Plain(p) ==> Plain(p[1..]);
    if p == [] then s == []
    else if p[0] == '%' then Like(s, p[1..]) || (s != [] && Like(s[1..], p))
    else if p[0] == '_' then s != [] && Like(s[1..], p[1..])
    else if p[0] == '\\' && |p| >= 2 then s != [] && s[0] == p[1] && Like(s[1..], p[2..])
    else s != [] && s[0] == p[0] && Like(s[1..], p[1..])
  }

  /** The pattern the repository binds for a search text: `"%" + q + "%"`. */
  function Pattern(q: string): (p: string)
    ensures q == "" ==> forall s :: Like(s, p)
  {
    LikeAnythingAll();
    assert q == "" ==> ("%" + q + "%")[1..] == "%";
    "%" + q + "%"
  }

  /** `q` holds none of the characters `LIKE` treats specially. */
  predicate Plain(q: string) {
    forall i :: 0 <= i < |q| ==> q[i] != '%' && q[i] != '_' && q[i] != '\\'
  }

  lemma {:induction false} LikeAnything(s: string)
    ensures Like(s, "%")
    decreases |s|
  {
    if s != [] {
      LikeAnything(s[1..]);
    }
  }

  lemma LikeAnythingAll()
    ensures forall s :: Like(s, "%")
  {
    forall s ensures Like(s, "%") {
      LikeAnything(s);
    }
  }

  /** For a plain `q`, the pattern `q%` matches exactly the texts that start with `q`. */
  lemma {:induction false} LikePrefix(s: string, q: string)
    requires Plain(q)
    ensures Like(s, q + "%") <==> IsPrefix(q, s)
    decreases |q|
  {
    if q == [] {
      assert q + "%" == "%";
      LikeAnything(s);
    } else {
      var p := q + "%";
      assert p[0] == q[0] && p[1..] == q[1..] + "%";
      LikePrefix(if s == [] then s else s[1..], q[1..]);
      if s != [] && s[0] == q[0] {
        assert IsPrefix(q, s) <==> IsPrefix(q[1..], s[1..]) by {
          if IsPrefix(q[1..], s[1..]) {
            assert s[..|q|] == [s[0]] + s[1..][..|q| - 1];
          }
          if IsPrefix(q, s) {
            assert s[1..][..|q| - 1] == s[..|q|][1..];
          }
        }
      } else if s != [] && |q| <= |s| {
        assert s[..|q|][0] == s[0];
      }
    }
  }

  /** A leading `%` lets the rest of the pattern match any suffix. */
  lemma LikeLeadingAny(s: string, r: string)
    ensures Like(s, "%" + r) <==> exists i :: 0 <= i <= |s| && Like(s[i..], r)
  {
    if Like(s, "%" + r) {
      var i := LeadingAnyWitness(s, r);
    }
    if exists i :: 0 <= i <= |s| && Like(s[i..], r) {
      var i :| 0 <= i <= |s| && Like(s[i..], r);
      LeadingAnyFrom(s, r, i);
    }
  }

  /** Where the rest of a pattern `%r` starts to match. */
  lemma {:induction false} LeadingAnyWitness(s: string, r: string) returns (i: nat)
    requires Like(s, "%" + r)
    ensures i <= |s| && Like(s[i..], r)
    decreases |s|
  {
    var p := "%" + r;
    assert p[0] == '%' && p[1..] == r;
    if Like(s, r) {
      i := 0;
      assert s[0..] == s;
    } else {
      var j := LeadingAnyWitness(s[1..], r);
      i := j + 1;
      assert s[1..][j..] == s[i..];
    }
  }

  /** A suffix matching `r` makes the whole text match `%r`. */
  lemma {:induction false} LeadingAnyFrom(s: string, r: string, i: nat)
    requires i <= |s| && Like(s[i..], r)
    ensures Like(s, "%" + r)
    decreases i
  {
    var p := "%" + r;
    assert p[0] == '%' && p[1..] == r;
    if i == 0 {
      assert s[0..] == s;
    } else {
      assert s[1..][i - 1..] == s[i..];
      LeadingAnyFrom(s[1..], r, i - 1);
    }
  }

  /**
   * For a search text without wildcard or escape characters, the pattern
   * `%q%` matches exactly the usernames that contain `q`.
   */
  lemma LikeIsContains(s: string, q: string)
    requires Plain(q)
    ensures Like(s, Pattern(q)) <==> Contains(s, q)
  {
    assert Pattern(q) == "%" + (q + "%");
    LikeLeadingAny(s, q + "%");
    forall i | 0 <= i <= |s| ensures Like(s[i..], q + "%") <==> IsPrefix(q, s[i..]) {
      LikePrefix(s[i..], q);
    }
  }

  /**
   * An underscore in the search text is a wildcard: the search `_` finds
   * every username that is not empty, `bob` among them, although `bob` does
   * not contain `_`.
   */
  lemma UnderscoreIsWildcard(s: string)
    ensures Like(s, Pattern("_")) <==> s != []
    ensures Like("bob", Pattern("_")) && !Contains("bob", "_")
  {
    var p := Pattern("_");
    assert p == "%" + "_%" && p[1..] == "_%" && p[2..] == "%";
    if s != [] {
      LikeAnything(s[1..]);
      assert s[0..] == s;
      LeadingAnyFrom(s, "_%", 0);
    }
    LikeAnything("ob");
    assert "bob"[1..] == "ob";
    LeadingAnyFrom("bob", "_%", 0);
    forall i | 0 <= i <= 3 ensures !IsPrefix("_", "bob"[i..]) {
      if i < 3 {
        assert "bob"[i..][..1] == ["bob"[i]];
      }
    }
  }

  // ---------------------------------------------------------------------
  // WHERE, ORDER BY and First

  /** `WHERE username LIKE p`. */
  function Where(users: map<int, User>, p: string): (r: map<int, User>)
    ensures forall id :: id in r <==> id in users && Like(users[id].username, p)
    ensures forall id :: id in r ==> r[id] == users[id]
  {
    map id | id in users && Like(users[id].username, p) :: users[id]
  }

  /** `SELECT * FROM users` with no ORDER BY: every row once, in an order the database picks. */
  method Find(users: map<int, User>) returns (rows: seq<User>)
    requires forall id :: id in users ==> users[id].id == id
    ensures Enumerates(rows, users)
  {
    rows := [];
    var rest := users.Keys;
    while rest != {}
      invariant rest <= users.Keys
      invariant |rows| + |rest| == |users|
      invariant forall i :: 0 <= i < |rows| ==> rows[i].id in users && users[rows[i].id] == rows[i] && rows[i].id !in rest
      invariant forall i, j :: 0 <= i < j < |rows| ==> rows[i].id != rows[j].id
      decreases |rest|
    {
      var id := Sets.Pick(rest);
      rows := rows + [users[id]];
      rest := rest - {id};
    }
  }

  /**
   * `ORDER BY rating DESC` over a whole table: every row once, highest
   * rating first, equal ratings in whatever order the database picks.
   */
  method OrderByRatingDesc(users: map<int, User>) returns (rows: seq<User>)
    requires forall id :: id in users ==> users[id].id == id
    ensures Enumerates(rows, users) && NonIncreasing(rows)
  {
    rows := [];
    var rest := users.Keys;
    while rest != {}
      invariant rest <= users.Keys
      invariant |rows| + |rest| == |users|
      invariant forall i :: 0 <= i < |rows| ==> rows[i].id in users && users[rows[i].id] == rows[i] && rows[i].id !in rest
      invariant forall i, j :: 0 <= i < j < |rows| ==> rows[i].id != rows[j].id
      invariant NonIncreasing(rows)
      invariant forall i, k :: 0 <= i < |rows| && k in rest ==> rows[i].rating >= users[k].rating
      decreases |rest|
    {
      ghost var top := Highest(users, rest);
      var id :| id in rest && forall k :: k in rest ==> users[k].rating <= users[id].rating;
      rows := rows + [users[id]];
      rest := rest - {id};
    }
  }

  /** A row of `rest` rated at least as high as every other row of `rest`. */
  lemma {:induction false} Highest<K>(users: map<K, User>, rest: set<K>) returns (top: K)
    requires rest != {} && rest <= users.Keys
    ensures top in rest && forall k :: k in rest ==> users[k].rating <= users[top].rating
    decreases |rest|
  {
    var a :| a in rest;
    if rest == {a} {
      top := a;
    } else {
      var b := Highest(users, rest - {a});
      top := if users[a].rating > users[b].rating then a else b;
    }
  }

  /**
   * `WHERE username LIKE p ORDER BY rating DESC LIMIT n`: matching rows only,
   * no row twice, highest rating first, and a matching row is left out only
   * when `n` rows rate at least as high as it.
   */
  method FindLike(users: map<int, User>, p: string, n: nat) returns (rows: seq<User>)
    requires forall id :: id in users ==> users[id].id == id
    ensures |rows| <= n && NonIncreasing(rows)
    ensures forall i :: 0 <= i < |rows| ==> rows[i].id in users && users[rows[i].id] == rows[i] && Like(rows[i].username, p)
    ensures forall i, j :: 0 <= i < j < |rows| ==> rows[i].id != rows[j].id
    ensures forall id :: id in users && Like(users[id].username, p) && (forall i :: 0 <= i < |rows| ==> rows[i].id != id) ==>
              |rows| == n && forall i :: 0 <= i < n ==> users[id].rating <= rows[i].rating
  {
    var matching := Where(users, p);
    var ordered := OrderByRatingDesc(matching);
    rows := ordered[..if |ordered| < n then |ordered| else n];
    forall id | id in users && Like(users[id].username, p) && (forall i :: 0 <= i < |rows| ==> rows[i].id != id)
      ensures |rows| == n && forall i :: 0 <= i < n ==> users[id].rating <= rows[i].rating
    {
      var j := IndexOfId(ordered, matching, id);
      assert forall i :: 0 <= i < |rows| ==> rows[i] == ordered[i];
      assert j >= |rows|;
    }
  }

  /** GORM's `First`: the row with the lowest primary key, if any. */
  method First(users: map<int, User>) returns (r: Option<User>)
    requires forall id :: id in users ==> users[id].id == id
    ensures r.None? <==> users == map[]
    ensures r.Some? ==> r.value.id in users && users[r.value.id] == r.value
    ensures r.Some? ==> forall id :: id in users ==> r.value.id <= id
  {
    r := None;
    var rest := users.Keys;
    while rest != {}
      invariant rest <= users.Keys
      invariant r.None? ==> rest == users.Keys
      invariant r.Some? ==> r.value.id in users && users[r.value.id] == r.value
      invariant r.Some? ==> forall id :: id in users && id !in rest ==> r.value.id <= id
      decreases |rest|
    {
      var id := Sets.Pick(rest);
      if r.None? || id < r.value.id {
        r := Some(users[id]);
      }
      rest := rest - {id};
    }
    assert users == map[] <==> users.Keys == {};
  }
}
