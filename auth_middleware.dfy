/** The authentication guard in front of the protected routes: Bearer
    header, token, verification, account lookup, then `next()`. */
module AuthMiddleware {
  import opened Wrappers
  import Text
  import opened Auth

  /** What `req.user` holds: the account without its password field. */
  datatype Principal = Principal(
    id: Id, name: string, email: string, role: string,
    resetToken: Option<string>, resetExpires: Option<int>)

  function PrincipalOf(u: User): (p: Principal)
    ensures p.id == u.id && p.email == u.email && p.role == u.role && p.name == u.name
  {
    Principal(u.id, u.name, u.email, u.role, u.resetToken, u.resetExpires)
  }

  datatype Reason = NotLoggedIn | AccountMissing | TokenInvalid

  /** The guard's outcome: a 401 answer, or `req.user` set and `next()`
      called once. */
  datatype Guard = Rejected(reason: Reason) | Next(user: Principal)

  function GuardStatus(g: Guard): (status: int)
    ensures g.Rejected? <==> status == 401
  {
    if g.Rejected? then 401 else 200
  }

  /** `User.findById(id)`. */
  function FindById(users: seq<User>, id: Id): (r: Option<nat>)
    ensures r.None? <==> forall k :: 0 <= k < |users| ==> users[k].id != id
    ensures r.Some? ==> r.value < |users| && users[r.value].id == id
    ensures r.Some? ==> forall k :: 0 <= k < r.value ==> users[k].id != id
  {
    FirstWhere(users, (u: User) => u.id == id)
  }

  /** `authMiddleware`. `verify` is `jwt.verify` followed by reading `userId`
      from the payload: `None` when it throws, `Some(None)` when the payload
      has no `userId`, so that `findById(undefined)` finds no account. */
  function Authenticate(header: Option<string>, verify: string -> Option<Option<Id>>, users: seq<User>): (g: Guard)
    ensures header.None? || !Text.StartsWith(header.value, BearerPrefix) ==> g == Rejected(NotLoggedIn)
    ensures header.Some? && Text.StartsWith(header.value, BearerPrefix) ==>
      var token := BearerToken(header.value);
      (token == "" ==> g == Rejected(NotLoggedIn)) &&
      (token != "" && verify(token).None? ==> g == Rejected(TokenInvalid)) &&
      (token != "" && verify(token) == Some(None) ==> g == Rejected(AccountMissing)) &&
      (token != "" && verify(token).Some? && verify(token).value.Some? ==>
         (FindById(users, verify(token).value.value).None? ==> g == Rejected(AccountMissing)))
    ensures g.Next? <==>
      header.Some? && Text.StartsWith(header.value, BearerPrefix) && BearerToken(header.value) != "" &&
      verify(BearerToken(header.value)).Some? && verify(BearerToken(header.value)).value.Some? &&
      FindById(users, verify(BearerToken(header.value)).value.value).Some?
    ensures g.Next? ==>
      g.user == PrincipalOf(users[FindById(users, verify(BearerToken(header.value)).value.value).value])
  {
    if header.None? || !Text.StartsWith(header.value, BearerPrefix) then Rejected(NotLoggedIn)
    else
      var token := BearerToken(header.value);
      if token == "" then Rejected(NotLoggedIn)
      else match verify(token)
        case None => Rejected(TokenInvalid)
        case Some(None) => Rejected(AccountMissing)
        case Some(Some(id)) =>
          match FindById(users, id)
          case None => Rejected(AccountMissing)
          case Some(i) => Next(PrincipalOf(users[i]))
  }

  /** The token is empty exactly for "Bearer " alone or "Bearer " followed by
      another space, so such headers never reach verification. */
  lemma EmptyTokenHeaders(header: string, verify: string -> Option<Option<Id>>, users: seq<User>)
    requires Text.StartsWith(header, BearerPrefix)
    requires |header| == |BearerPrefix| || header[|BearerPrefix|] == ' '
    ensures Authenticate(Some(header), verify, users) == Rejected(NotLoggedIn)
  {
  }

  /** "Bearer <token>" with a verified token of an existing account passes
      with that account. */
  lemma WellFormedHeaderPasses(token: string, verify: string -> Option<Option<Id>>, users: seq<User>, i: nat)
    requires token != "" && ' ' !in token
    requires i < |users| && verify(token) == Some(Some(users[i].id))
    requires forall k :: 0 <= k < i ==> users[k].id != users[i].id
    ensures Authenticate(Some(BearerPrefix + token), verify, users) == Next(PrincipalOf(users[i]))
  {
    var h := BearerPrefix + token;
    assert h[..|BearerPrefix|] == BearerPrefix;
    assert h[|BearerPrefix|..] == token;
    UpToSpaceWhole(token);
  }

  lemma {:induction false} UpToSpaceWhole(s: string)
    requires ' ' !in s
    ensures Text.UpToSpace(s) == s
  {
    if s != [] {
      UpToSpaceWhole(s[1..]);
      assert [s[0]] + s[1..] == s;
    }
  }
}
