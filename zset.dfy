/**
 * The Redis sorted set `global_leaderboard`, as the sequence of its entries in
 * ZREVRANGE order: higher score first, equal scores in reverse byte-wise
 * lexicographic order of their members. Its abstract value is the map from
 * member to score (`MapOf`).
 */
module ZSet {
  import Sets

  datatype Entry = Entry(member: string, score: int)

  /** Byte-wise comparison of two strings, as Redis compares members. */
  predicate LexLess(a: string, b: string) {
    if a == [] then b != []
    else b != [] && (a[0] < b[0] || (a[0] == b[0] && LexLess(a[1..], b[1..])))
  }

  lemma {:induction false} LexIrreflexive(a: string)
    ensures !LexLess(a, a)
  {
    if a != [] {
      LexIrreflexive(a[1..]);
    }
  }

  lemma {:induction false} LexAsymmetric(a: string, b: string)
    requires LexLess(a, b)
    ensures !LexLess(b, a)
  {
    if a != [] && a[0] == b[0] {
      LexAsymmetric(a[1..], b[1..]);
    }
  }

  lemma {:induction false} LexTransitive(a: string, b: string, c: string)
    requires LexLess(a, b) && LexLess(b, c)
    ensures LexLess(a, c)
  {
    if a != [] && a[0] == b[0] && b[0] == c[0] {
      LexTransitive(a[1..], b[1..], c[1..]);
    }
  }

  lemma {:induction false} LexTotal(a: string, b: string)
    requires a != b
    ensures LexLess(a, b) || LexLess(b, a)
  {
    if a != [] && b != [] && a[0] == b[0] {
      assert a == [a[0]] + a[1..] && b == [b[0]] + b[1..];
      LexTotal(a[1..], b[1..]);
    }
  }

  /** `a` is listed before `b` by ZREVRANGE. */
  predicate Before(a: Entry, b: Entry) {
    a.score > b.score || (a.score == b.score && LexLess(b.member, a.member))
  }

  lemma BeforeIrreflexive(a: Entry)
    ensures !Before(a, a)
  {
    LexIrreflexive(a.member);
  }

  lemma BeforeAsymmetric(a: Entry, b: Entry)
    requires Before(a, b)
    ensures !Before(b, a)
  {
    if a.score == b.score {
      LexAsymmetric(b.member, a.member);
    }
  }

  lemma BeforeTransitive(a: Entry, b: Entry, c: Entry)
    requires Before(a, b) && Before(b, c)
    ensures Before(a, c)
  {
    if a.score == b.score && b.score == c.score {
      LexTransitive(c.member, b.member, a.member);
    }
  }

  lemma BeforeTotal(a: Entry, b: Entry)
    requires a.member != b.member
    ensures Before(a, b) || Before(b, a)
  {
    LexTotal(a.member, b.member);
  }

  /** The abstract value: each member's score. Its keys are the members. */
  function MapOf(s: seq<Entry>): map<string, int> {
    if s == [] then map[] else MapOf(s[1..])[s[0].member := s[0].score]
  }

  /**
   * The representation invariant: each entry is listed before the next, and no
   * member occurs twice.
   */
  ghost predicate Valid(s: seq<Entry>)
    decreases |s|
  {
    s == [] || (Valid(s[1..]) && s[0].member !in MapOf(s[1..]) && (|s| == 1 || Before(s[0], s[1])))
  }

  lemma {:induction false} KeyAt(s: seq<Entry>, i: int)
    requires 0 <= i < |s|
    ensures s[i].member in MapOf(s)
  {
    if i > 0 {
      KeyAt(s[1..], i - 1);
    }
  }

  lemma {:induction false} KeyIndex(s: seq<Entry>, k: string)
    requires k in MapOf(s)
    ensures exists j :: 0 <= j < |s| && s[j].member == k
  {
    if s[0].member != k {
      KeyIndex(s[1..], k);
      var j :| 0 <= j < |s[1..]| && s[1..][j].member == k;
      assert s[j + 1].member == k;
    }
  }

  lemma {:induction false} ValidHead(s: seq<Entry>)
    requires Valid(s) && s != []
    ensures forall j :: 1 <= j < |s| ==> Before(s[0], s[j])
  {
    if |s| > 1 {
      ValidHead(s[1..]);
      forall j | 2 <= j < |s| ensures Before(s[0], s[j]) {
        assert s[1..][j - 1] == s[j];
        BeforeTransitive(s[0], s[1], s[j]);
      }
    }
  }

  /** Any two entries of a valid sequence are in ZREVRANGE order and distinct members. */
  lemma {:induction false} ValidAt(s: seq<Entry>, i: int, j: int)
    requires Valid(s) && 0 <= i < j < |s|
    ensures Before(s[i], s[j]) && s[i].member != s[j].member
  {
    if i == 0 {
      ValidHead(s);
      KeyAt(s[1..], j - 1);
    } else {
      ValidAt(s[1..], i - 1, j - 1);
    }
  }

  lemma {:induction false} MapOfAt(s: seq<Entry>, i: int)
    requires Valid(s) && 0 <= i < |s|
    ensures s[i].member in MapOf(s) && MapOf(s)[s[i].member] == s[i].score
  {
    KeyAt(s, i);
    if i > 0 {
      ValidAt(s, 0, i);
      MapOfAt(s[1..], i - 1);
    }
  }

  /** Every later entry of a valid sequence comes after its head. */
  lemma ValidHeadIn(s: seq<Entry>, x: Entry)
    requires Valid(s) && s != [] && x in s[1..]
    ensures Before(s[0], x)
  {
    ValidHead(s);
    var j :| 0 <= j < |s[1..]| && s[1..][j] == x;
    assert s[j + 1] == x;
  }

  /** Redis drops a member's old entry when ZADD gives it a new score. */
  function Remove(s: seq<Entry>, member: string): seq<Entry> {
    if s == [] then []
    else if s[0].member == member then Remove(s[1..], member)
    else [s[0]] + Remove(s[1..], member)
  }

  /** Removing keeps only entries that were there. */
  lemma {:induction false} RemoveElems(s: seq<Entry>, member: string)
    ensures forall x :: x in Remove(s, member) ==> x in s
    decreases |s|
  {
    if s != [] {
      RemoveElems(s[1..], member);
    }
  }

  /** Removing a member drops exactly its key from the abstract value. */
  lemma {:induction false} RemoveMapOf(s: seq<Entry>, member: string)
    ensures MapOf(Remove(s, member)) == MapOf(s) - {member}
    decreases |s|
  {
    if s != [] {
      RemoveMapOf(s[1..], member);
      if s[0].member == member {
        assert MapOf(s) - {member} == MapOf(s[1..]) - {member};
      } else {
        var r := [s[0]] + Remove(s[1..], member);
        assert r[1..] == Remove(s[1..], member);
      }
    }
  }

  lemma {:induction false} RemoveValid(s: seq<Entry>, member: string)
    requires Valid(s)
    ensures Valid(Remove(s, member))
    decreases |s|
  {
    if s != [] {
      RemoveValid(s[1..], member);
      var rest := Remove(s[1..], member);
      if s[0].member != member {
        RemoveMapOf(s[1..], member);
        var r := [s[0]] + rest;
        assert r[1..] == rest;
        if rest != [] {
          RemoveElems(s[1..], member);
          assert rest[0] in s[1..];
          ValidHeadIn(s, rest[0]);
        }
      }
    }
  }

  /** The place a new member takes in ZREVRANGE order. */
  function Insert(s: seq<Entry>, e: Entry): seq<Entry> {
    if s == [] then [e]
    else if Before(e, s[0]) then [e] + s
    else [s[0]] + Insert(s[1..], e)
  }

  /** Inserting adds exactly the new entry. */
  lemma {:induction false} InsertElems(s: seq<Entry>, e: Entry)
    ensures forall x :: x in Insert(s, e) <==> x in s || x == e
    decreases |s|
  {
    if s != [] && !Before(e, s[0]) {
      InsertElems(s[1..], e);
      assert s == [s[0]] + s[1..];
    }
  }

  /** Inserting a new member adds exactly its key and score to the abstract value. */
  lemma {:induction false} InsertMapOf(s: seq<Entry>, e: Entry)
    requires e.member !in MapOf(s)
    ensures MapOf(Insert(s, e)) == MapOf(s)[e.member := e.score]
    decreases |s|
  {
    if s == [] {
      assert [e][1..] == [];
    } else if Before(e, s[0]) {
      var r := [e] + s;
      assert r[1..] == s;
    } else {
      assert s[0].member != e.member;
      assert e.member !in MapOf(s[1..]);
      InsertMapOf(s[1..], e);
      var r := [s[0]] + Insert(s[1..], e);
      assert r[1..] == Insert(s[1..], e);
    }
  }

  lemma {:induction false} InsertValid(s: seq<Entry>, e: Entry)
    requires Valid(s) && e.member !in MapOf(s)
    ensures Valid(Insert(s, e))
    decreases |s|
  {
    if s != [] && !Before(e, s[0]) {
      BeforeTotal(e, s[0]);
      InsertValid(s[1..], e);
      InsertMapOf(s[1..], e);
      InsertElems(s[1..], e);
      var rest := Insert(s[1..], e);
      var r := [s[0]] + rest;
      assert r[1..] == rest;
      if rest[0] != e {
        assert rest[0] in s[1..];
        ValidHeadIn(s, rest[0]);
      }
    } else if s != [] {
      var r := [e] + s;
      assert r[1..] == s && r[0] == e && r[1] == s[0];
    } else {
      assert [e][1..] == [];
    }
  }

  /** `ZADD key score member`: insert the member or replace its score. */
  function Add(s: seq<Entry>, member: string, score: int): (r: seq<Entry>)
    ensures Entry(member, score) in r
    ensures forall x :: x in r ==> x == Entry(member, score) || x in s
  {
    InsertElems(Remove(s, member), Entry(member, score));
    RemoveElems(s, member);
    Insert(Remove(s, member), Entry(member, score))
  }

  /** ZADD keeps the set well formed and sets exactly one member's score. */
  lemma AddValid(s: seq<Entry>, member: string, score: int)
    requires Valid(s)
    ensures Valid(Add(s, member, score))
    ensures MapOf(Add(s, member, score)) == MapOf(s)[member := score]
  {
    RemoveValid(s, member);
    RemoveMapOf(s, member);
    InsertValid(Remove(s, member), Entry(member, score));
    InsertMapOf(Remove(s, member), Entry(member, score));
    assert MapOf(s)[member := score] == (MapOf(s) - {member})[member := score];
  }

  /**
   * `ZREVRANGE key start stop` with Redis's index rules: negative indices
   * count from the end, the start is clamped to 0, the stop to the last
   * index, and an empty window yields nothing.
   */
  function RevRange(s: seq<Entry>, start: int, stop: int): (r: seq<Entry>)
    ensures 0 <= start <= stop ==>
              r == s[Min(start, |s|)..Min(stop + 1, |s|)]
    ensures 0 <= stop < start ==> r == []
  {
    var n := |s|;
    var a := if start < 0 then start + n else start;
    var b := if stop < 0 then stop + n else stop;
    var a' := if a < 0 then 0 else a;
    if a' > b || a' >= n then [] else s[a'..if b >= n then n else b + 1]
  }

  function Min(a: int, b: int): int {
    if a < b then a else b
  }

  /** No member scores strictly more than `x`. */
  predicate NoneAbove(m: map<string, int>, x: int) {
    forall k :: k in m ==> m[k] <= x
  }

  /** The number of members whose score is strictly greater than `x`. */
  function CountAbove(m: map<string, int>, x: int): (r: nat)
    ensures r == 0 <==> NoneAbove(m, x)
  {
    var above := set k | k in m && m[k] > x;
    if forall k :: k in m ==> m[k] <= x then
      assert above == {};
      |above|
    else
      var k :| k in m && m[k] > x;
      assert k in above;
      |above|
  }

  /** `ZCOUNT key (x +inf`. */
  function ZCount(s: seq<Entry>, x: int): (r: nat)
    ensures r == 0 <==> NoneAbove(MapOf(s), x)
  {
    CountAbove(MapOf(s), x)
  }

  /**
   * In ZREVRANGE order the entries above score `s[i].score` are exactly those
   * listed before the first entry with that score, so an entry that opens a
   * group of equal scores has `ZCount` equal to its position: ranks skip by
   * the size of the previous tie group.
   */
  lemma ZCountAtGroupStart(s: seq<Entry>, i: int)
    requires Valid(s) && 0 <= i < |s|
    requires i == 0 || s[i - 1].score > s[i].score
    ensures ZCount(s, s[i].score) == i
  {
    var m := MapOf(s);
    var above := set k | k in m && m[k] > s[i].score;
    var below := Sets.Below(i);
    AboveIsPrefix(s, i, above, below);
    PrefixInjective(s, below);
    Sets.InjectiveImageCard<nat, string>(below, (j: nat) => MemberAt(s, j), above);
  }

  lemma AboveIsPrefix(s: seq<Entry>, i: int, above: set<string>, below: set<nat>)
    requires Valid(s) && 0 <= i < |s|
    requires i == 0 || s[i - 1].score > s[i].score
    requires above == set k | k in MapOf(s) && MapOf(s)[k] > s[i].score
    requires below == Sets.Below(i)
    ensures forall j :: j in below ==> MemberAt(s, j) in above
    ensures forall k :: k in above ==> exists j :: j in below && MemberAt(s, j) == k
  {
    forall k | k in above ensures exists j :: j in below && MemberAt(s, j) == k {
      AboveInPrefix(s, i, k);
      var j :| 0 <= j < i && s[j].member == k;
      assert j in below && MemberAt(s, j) == k;
    }
    forall j | j in below ensures MemberAt(s, j) in above {
      PrefixAbove(s, i, j);
    }
  }

  lemma PrefixInjective(s: seq<Entry>, below: set<nat>)
    requires Valid(s)
    requires forall j :: j in below ==> j < |s|
    ensures forall x, y :: x in below && y in below && MemberAt(s, x) == MemberAt(s, y) ==> x == y
  {
    forall x, y | x in below && y in below && MemberAt(s, x) == MemberAt(s, y) ensures x == y {
      if x < y {
        ValidAt(s, x, y);
      } else if y < x {
        ValidAt(s, y, x);
      }
    }
  }

  function MemberAt(s: seq<Entry>, j: nat): string {
    if j < |s| then s[j].member else ""
  }

  lemma AboveInPrefix(s: seq<Entry>, i: int, k: string)
    requires Valid(s) && 0 <= i < |s|
    requires k in MapOf(s) && MapOf(s)[k] > s[i].score
    ensures exists j :: 0 <= j < i && s[j].member == k
  {
    KeyIndex(s, k);
    var j :| 0 <= j < |s| && s[j].member == k;
    MapOfAt(s, j);
    if i < j {
      ValidAt(s, i, j);
    }
  }

  lemma PrefixAbove(s: seq<Entry>, i: int, j: int)
    requires Valid(s) && 0 <= j < i < |s|
    requires s[i - 1].score > s[i].score
    ensures s[j].member in MapOf(s) && MapOf(s)[s[j].member] > s[i].score
  {
    KeyAt(s, j);
    MapOfAt(s, j);
    if j < i - 1 {
      ValidAt(s, j, i - 1);
    }
  }

  /** A valid sequence is determined by its abstract value. */
  lemma {:induction false} Canonical(s1: seq<Entry>, s2: seq<Entry>)
    requires Valid(s1) && Valid(s2)
    requires MapOf(s1) == MapOf(s2)
    ensures s1 == s2
    decreases |s1|
  {
    SameEntries(s1, s2);
    SameEntries(s2, s1);
    SortedUnique(s1, s2);
  }

  lemma SameEntries(s1: seq<Entry>, s2: seq<Entry>)
    requires Valid(s1) && Valid(s2)
    requires MapOf(s1) == MapOf(s2)
    ensures forall x :: x in s1 ==> x in s2
  {
    forall x | x in s1 ensures x in s2 {
      var i :| 0 <= i < |s1| && s1[i] == x;
      KeyAt(s1, i);
      MapOfAt(s1, i);
      KeyIndex(s2, x.member);
      var j :| 0 <= j < |s2| && s2[j].member == x.member;
      MapOfAt(s2, j);
      assert s2[j] == x;
    }
  }

  lemma HeadOrAfter(s: seq<Entry>, x: Entry)
    requires Valid(s) && x in s
    ensures x == s[0] || Before(s[0], x)
  {
    assert s == [s[0]] + s[1..];
    if x != s[0] {
      ValidHeadIn(s, x);
    }
  }

  lemma {:induction false} SortedUnique(s1: seq<Entry>, s2: seq<Entry>)
    requires Valid(s1) && Valid(s2)
    requires forall x :: x in s1 <==> x in s2
    ensures s1 == s2
    decreases |s1|
  {
    assert (s1 == []) == (s2 == []) by {
      if s1 != [] {
        assert s1[0] in s2;
      }
      if s2 != [] {
        assert s2[0] in s1;
      }
    }
    if s1 != [] {
      var h1, h2 := s1[0], s2[0];
      assert s1 == [h1] + s1[1..] && s2 == [h2] + s2[1..];
      HeadOrAfter(s1, h2);
      HeadOrAfter(s2, h1);
      BeforeIrreflexive(h1);
      if Before(h1, h2) {
        BeforeAsymmetric(h1, h2);
      }
      assert h1 == h2;
      forall x ensures x in s1[1..] <==> x in s2[1..] {
        BeforeIrreflexive(x);
        if x in s1[1..] {
          ValidHeadIn(s1, x);
          assert x in s2;
        }
        if x in s2[1..] {
          ValidHeadIn(s2, x);
          assert x in s1;
        }
      }
      SortedUnique(s1[1..], s2[1..]);
    }
  }
}
