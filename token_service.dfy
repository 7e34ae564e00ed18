/**
 * The session-token table (src/auth/services/TokenService.js): issuing a
 * token on login, verifying it under a one-week sliding window, deleting one
 * token or every token of a user, and the hourly sweep of stale rows.
 * The table is a sequence of rows in insertion order; a `findOne` returns the
 * first matching row. Times are milliseconds since the epoch.
 */
module TokenService {
  import opened Wrappers
  import Generator

  /** A row of the `tokens` table (src/auth/model/Token.js plus the `userId` foreign key). */
  datatype Token = Token(token: string, userId: nat, lastUsedAt: int)

  /** What a successful verification hands to the request: `{ id: userId }`. */
  datatype Identity = Identity(id: nat)

  /** Verification of an unknown or stale token dereferences a null row. */
  datatype VerifyError = NullRow

  /** The `where` clauses the service passes to `Token.destroy`. */
  datatype Where = ByToken(token: string) | ByUser(userId: nat) | OlderThan(cutoff: int)

  const OneWeek: int := 7 * 24 * 60 * 60 * 1000

  const TokenLength: nat := 32

  predicate Matches(w: Where, r: Token) {
    match w
    case ByToken(t) => r.token == t
    case ByUser(u) => r.userId == u
    case OlderThan(cutoff) => r.lastUsedAt < cutoff
  }

  /** The row `verify` accepts: same token, used strictly after `now - OneWeek`. */
  predicate Live(r: Token, t: string, now: int) {
    r.token == t && r.lastUsedAt > now - OneWeek
  }

  /** The rows a sweep at `now` removes: used strictly before `now - OneWeek`. */
  predicate Stale(r: Token, now: int) {
    Matches(OlderThan(now - OneWeek), r)
  }

  /** `Token.destroy({ where })`: the rows not matched, in their order. */
  function Destroy(rows: seq<Token>, w: Where): (r: seq<Token>)
    ensures |r| <= |rows|
    ensures forall x :: x in r <==> x in rows && !Matches(w, x)
    ensures forall x :: !Matches(w, x) ==> multiset(r)[x] == multiset(rows)[x]
  {
    if rows == [] then []
    else
      var rest := Destroy(rows[1..], w);
      assert rows == [rows[0]] + rows[1..];
      if Matches(w, rows[0]) then rest else [rows[0]] + rest
  }

  /** `Token.findOne` in `verify`: the index of the first live row with token `t`. */
  function FindLive(rows: seq<Token>, t: string, now: int): (r: Option<nat>)
    ensures r.Some? ==> r.value < |rows| && Live(rows[r.value], t, now)
    ensures r.Some? ==> forall j :: 0 <= j < r.value ==> !Live(rows[j], t, now)
    ensures r.None? ==> forall j :: 0 <= j < |rows| ==> !Live(rows[j], t, now)
  {
    if rows == [] then None
    else if Live(rows[0], t, now) then Some(0)
    else match FindLive(rows[1..], t, now)
      case None => None
      case Some(i) => Some(i + 1)
  }

  /** The row `verify` would accept, if any. */
  function LiveRow(rows: seq<Token>, t: string, now: int): (r: Option<Token>)
    ensures r.Some? <==> exists x :: x in rows && Live(x, t, now)
    ensures r.Some? ==> r.value in rows && Live(r.value, t, now)
  {
    match FindLive(rows, t, now)
    case None => None
    case Some(i) => Some(rows[i])
  }

  class TokenStore {
    var rows: seq<Token>

    constructor ()
      ensures rows == []
    {
      rows := [];
    }

    /**
     * `createToken(user)`: a 32-character token from `bytes` (the 32 random
     * bytes), stored as one new row owned by `userId` and stamped `now`.
     */
    method CreateToken(userId: nat, bytes: seq<Generator.Byte>, now: int) returns (token: string)
      requires |bytes| == TokenLength
      modifies this
      ensures |token| == TokenLength && Generator.IsHexString(token)
      ensures token == Generator.GenerateRandomString(bytes, TokenLength)
      ensures rows == old(rows) + [Token(token, userId, now)]
    {
      token := Generator.GenerateRandomString(bytes, TokenLength);
      rows := rows + [Token(token, userId, now)];
    }

    /**
     * `verify(token)`: on the first live row, refresh `lastUsedAt` to `now`
     * and return its owner; with no live row, fail and change nothing.
     */
    method Verify(t: string, now: int) returns (r: Result<Identity, VerifyError>)
      modifies this
      ensures r.Success? <==> exists x :: x in old(rows) && Live(x, t, now)
      ensures match FindLive(old(rows), t, now)
        case None => r == Failure(NullRow) && rows == old(rows)
        case Some(i) =>
          && r == Success(Identity(old(rows)[i].userId))
          && rows == old(rows)[i := old(rows)[i].(lastUsedAt := now)]
    {
      var found := FindLive(rows, t, now);
      if found.None? {
        assert LiveRow(rows, t, now).None?;
        return Failure(NullRow);
      }
      var i := found.value;
      var saved := rows[i];
      rows := rows[i := saved.(lastUsedAt := now)];
      r := Success(Identity(saved.userId));
    }

    /** `deleteToken(token)`: remove every row carrying `t`; nothing else changes. */
    method DeleteToken(t: string)
      modifies this
      ensures rows == Destroy(old(rows), ByToken(t))
    {
      rows := Destroy(rows, ByToken(t));
    }

    /** `deleteMultipleTokens(userId)`: remove every row owned by `userId`. */
    method DeleteMultipleTokens(userId: nat)
      modifies this
      ensures rows == Destroy(old(rows), ByUser(userId))
    {
      rows := Destroy(rows, ByUser(userId));
    }

    /** The body of the hourly `scheduleCleanup` callback, run at time `now`. */
    method Sweep(now: int)
      modifies this
      ensures rows == Destroy(old(rows), OlderThan(now - OneWeek))
    {
      rows := Destroy(rows, OlderThan(now - OneWeek));
    }
  }

  /** Verify's lookup on a table with one more row in front. */
  lemma LiveRowCons(h: Token, rest: seq<Token>, t: string, now: int)
    ensures LiveRow([h] + rest, t, now) == if Live(h, t, now) then Some(h) else LiveRow(rest, t, now)
  {
    assert ([h] + rest)[1..] == rest;
  }

  /** A destroy that removes only rows verify rejects keeps the row verify picks. */
  lemma {:induction false} DestroyKeepsLiveRow(rows: seq<Token>, w: Where, t: string, now: int)
    requires forall x :: x in rows && Matches(w, x) ==> !Live(x, t, now)
    ensures LiveRow(Destroy(rows, w), t, now) == LiveRow(rows, t, now)
  {
    if rows != [] {
      var rest := Destroy(rows[1..], w);
      assert forall x :: x in rows[1..] ==> x in rows;
      DestroyKeepsLiveRow(rows[1..], w, t, now);
      LiveRowCons(rows[0], rows[1..], t, now);
      assert rows == [rows[0]] + rows[1..];
      if !Matches(w, rows[0]) {
        assert Destroy(rows, w) == [rows[0]] + rest;
        LiveRowCons(rows[0], rest, t, now);
      } else {
        assert Destroy(rows, w) == rest;
      }
    }
  }

  /** The sweep never changes what verify returns at the same instant. */
  lemma SweepPreservesVerify(rows: seq<Token>, t: string, now: int)
    ensures LiveRow(Destroy(rows, OlderThan(now - OneWeek)), t, now) == LiveRow(rows, t, now)
  {
    DestroyKeepsLiveRow(rows, OlderThan(now - OneWeek), t, now);
  }

  /** Every row the sweep removes is one verify would already reject. */
  lemma SweptRowsAreDead(rows: seq<Token>, now: int, x: Token)
    requires x in rows && x !in Destroy(rows, OlderThan(now - OneWeek))
    ensures forall t :: !Live(x, t, now)
  {
  }

  /** A row used exactly one week before `now` is neither accepted nor swept. */
  lemma BoundaryRowNeitherLiveNorStale(x: Token, now: int)
    requires x.lastUsedAt == now - OneWeek
    ensures !Live(x, x.token, now) && !Stale(x, now)
  {
  }

  /** A row last used eight days before `now` is removed by one sweep. */
  lemma EightDayOldTokenSwept(rows: seq<Token>, x: Token, now: int)
    requires x in rows && x.lastUsedAt == now - 8 * 24 * 60 * 60 * 1000
    ensures x !in Destroy(rows, OlderThan(now - OneWeek))
  {
  }

  /** A token used an hour ago survives a sweep. */
  lemma HourOldTokenKept(rows: seq<Token>, x: Token, now: int)
    requires x in rows && x.lastUsedAt == now - 60 * 60 * 1000
    ensures x in Destroy(rows, OlderThan(now - OneWeek))
  {
  }

  /**
   * A freshly issued token whose string no other row carries verifies to its
   * owner while less than a week has passed, and fails from a week on.
   */
  lemma {:induction false} IssuedTokenVerifies(rows: seq<Token>, x: Token, now: int)
    requires forall y :: y in rows ==> y.token != x.token
    ensures now - OneWeek < x.lastUsedAt ==> LiveRow(rows + [x], x.token, now) == Some(x)
    ensures now - OneWeek >= x.lastUsedAt ==> LiveRow(rows + [x], x.token, now) == None
  {
    var all := rows + [x];
    assert all[|rows|] == x;
    forall j | 0 <= j < |rows|
      ensures !Live(all[j], x.token, now)
    {
      assert all[j] == rows[j] && rows[j] in rows;
    }
    if now - OneWeek < x.lastUsedAt {
      assert Live(all[|rows|], x.token, now);
      assert FindLive(all, x.token, now) == Some(|rows|);
    }
  }

  /** After `deleteMultipleTokens(u)` no token verifies to `u`. */
  lemma RevokedUserCannotVerify(rows: seq<Token>, u: nat, t: string, now: int)
    ensures LiveRow(Destroy(rows, ByUser(u)), t, now) != None ==>
      LiveRow(Destroy(rows, ByUser(u)), t, now).value.userId != u
  {
  }

  /** After `deleteToken(t)` the token `t` no longer verifies. */
  lemma DeletedTokenCannotVerify(rows: seq<Token>, t: string, now: int)
    ensures LiveRow(Destroy(rows, ByToken(t)), t, now) == None
  {
  }

  /** Deleting an absent token leaves the table as it was. */
  lemma {:induction false} DeleteAbsentTokenIsNoOp(rows: seq<Token>, t: string)
    requires forall x :: x in rows ==> x.token != t
    ensures Destroy(rows, ByToken(t)) == rows
  {
    if rows != [] {
      DeleteAbsentTokenIsNoOp(rows[1..], t);
      assert rows == [rows[0]] + rows[1..];
    }
  }

  /** Destroying by the same clause twice removes nothing more: deletion is idempotent. */
  lemma {:induction false} DestroyIdempotent(rows: seq<Token>, w: Where)
    ensures Destroy(Destroy(rows, w), w) == Destroy(rows, w)
  {
    if rows != [] {
      DestroyIdempotent(rows[1..], w);
      var rest := Destroy(rows[1..], w);
      if !Matches(w, rows[0]) {
        assert ([rows[0]] + rest)[1..] == rest;
      }
    }
  }
}
