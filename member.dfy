/**
 * The key under which a user is stored in the Redis sorted set: the username,
 * a colon and the decimal id. It lets the leaderboard be rendered from the
 * cache alone, without looking profiles up in the database.
 */
module Member {
  import opened Text
  import opened Models

  /** `fmt.Sprintf("%s:%d", username, id)`. */
  function Encode(username: string, id: int): (m: string)
    ensures m == Join([username, FormatInt(id)], ':')
  {
    username + ":" + FormatInt(id)
  }

  /** The member key of a table row. */
  function Of(u: User): string {
    Encode(u.username, u.id)
  }

  /** What the cache read path recovers from a member key. */
  datatype Decoded = Decoded(username: string, id: int)

  /**
   * `strings.Split(member, ":")`, dropping members with fewer than two parts,
   * then the first part as username and `strconv.Atoi` of the second as id,
   * its error ignored.
   */
  function Decode(member: string): (r: Option<Decoded>)
    ensures r.Some? ==> ':' !in r.value.username
  {
    var parts := Split(member, ':');
    if |parts| < 2 then None else Some(Decoded(parts[0], Atoi(parts[1]).value))
  }

  /** Exactly the members without a colon are dropped. */
  lemma DecodeNoneIff(member: string)
    ensures Decode(member).None? <==> ':' !in member
  {
    if ':' in member {
      var i := IndexOf(member, ':');
      assert |Split(member, ':')| == 1 + |Split(member[i + 1..], ':')|;
    }
  }

  /** Decoding an encoded key gives back the user, when the username has no colon. */
  lemma DecodeEncode(username: string, id: int)
    requires ':' !in username
    requires IsInt64(id)
    ensures Decode(Encode(username, id)) == Some(Decoded(username, id))
  {
    SplitJoin([username, FormatInt(id)], ':');
    AtoiFormatInt(id);
  }

  /**
   * A username holding a colon is cut at that colon: the part before it is
   * read as the username and the part after it as the id.
   */
  lemma DecodeColonUsername(u1: string, u2: string, id: int)
    requires ':' !in u1 && ':' !in u2
    ensures Decode(Encode(u1 + ":" + u2, id)) == Some(Decoded(u1, Atoi(u2).value))
  {
    var parts := [u1, u2, FormatInt(id)];
    assert parts[1..] == [u2, FormatInt(id)] && parts[1..][1..] == [FormatInt(id)];
    assert Join(parts, ':') == Encode(u1 + ":" + u2, id);
    SplitJoin(parts, ':');
  }

  /** So a username such as `a:b` comes back as `a`, with id 0 in place of the real one. */
  lemma DecodeColonUsernameLosesId(u1: string, u2: string, id: int)
    requires ':' !in u1 && ':' !in u2
    requires u2 != [] && !IsDigit(u2[0]) && u2[0] != '+' && u2[0] != '-'
    ensures Decode(Encode(u1 + ":" + u2, id)) == Some(Decoded(u1, 0))
  {
    DecodeColonUsername(u1, u2, id);
    AtoiSyntaxError(u2, 0);
  }

  lemma FormatIntInjective(a: int, b: int)
    requires FormatInt(a) == FormatInt(b)
    ensures a == b
  {
    FormatIntSign(a);
    FormatIntSign(b);
    if a < 0 {
      FormatIntNegative(a);
      FormatIntNegative(b);
      FormatNatInjective(-a, -b);
    } else {
      FormatNatInjective(a, b);
    }
  }

  /**
   * Member keys never collide, whatever the usernames hold: the id is the text
   * after the last colon, and `%d` never writes a colon.
   */
  lemma EncodeInjective(u1: string, id1: int, u2: string, id2: int)
    requires Encode(u1, id1) == Encode(u2, id2)
    ensures u1 == u2 && id1 == id2
  {
    var s := Encode(u1, id1);
    var d1, d2 := FormatInt(id1), FormatInt(id2);
    assert s[|u1|] == ':' && s[|u2|] == ':';
    assert forall j :: |u1| < j < |s| ==> s[j] == d1[j - |u1| - 1];
    assert forall j :: |u2| < j < |s| ==> s[j] == d2[j - |u2| - 1];
    assert |u1| == |u2|;
    assert d1 == s[|s| - |d1|..] == d2;
    assert u1 == s[..|u1|] == u2;
    FormatIntInjective(id1, id2);
  }
}
