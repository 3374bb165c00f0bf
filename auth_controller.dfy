/** The account endpoints: registration with a duplicate-email check, login,
    logout, and the password-reset cycle, which issues a hashed six-digit
    code with an expiry and accepts it at most once. */
module Auth {
  import opened Wrappers
  import Text
  import Pagination

  type Id = nat

  /** A stored account; `password` holds the password hash. */
  datatype User = User(
    id: Id, name: string, email: string, password: string, role: string,
    resetToken: Option<string>, resetExpires: Option<int>)

  const DefaultRole := "user"
  const DefaultResetMinutes := 30
  const BearerPrefix := "Bearer "

  // ---- reset codes and their expiry ----

  /** `Number(process.env.RESET_TOKEN_EXPIRATION_MINUTES) || 30`, with `None`
      for an unset or non-numeric variable. */
  function ResetMinutes(env: Option<int>): (m: int)
    ensures m != 0
    ensures env.None? || env == Some(0) ==> m == DefaultResetMinutes
    ensures env.Some? && env.value != 0 ==> m == env.value
  {
    Pagination.OrDefault(env, DefaultResetMinutes)
  }

  /** `Date.now() + RESET_TOKEN_EXPIRATION_MINUTES * 60 * 1000`. */
  function ResetExpiry(now: int, env: Option<int>): (t: int)
    ensures env.None? ==> t == now + 1800000
    ensures ResetMinutes(env) > 0 ==> t > now
  {
    now + ResetMinutes(env) * 60 * 1000
  }

  /** `Math.floor(100000 + r * 900000)` for `r = Math.random()` in [0, 1). */
  function ResetCodeValue(r: real): (v: int)
    requires 0.0 <= r < 1.0
    ensures 100000 <= v <= 999999
  {
    (100000.0 + r * 900000.0).Floor
  }

  /** `generateResetCode()`: the code's decimal string, always six digits. */
  function GenerateResetCode(r: real): (code: string)
    requires 0.0 <= r < 1.0
    ensures |code| == 6
    ensures forall k :: 0 <= k < |code| ==> Text.IsDigit(code[k])
    ensures Text.NumberOf(code) == Some(ResetCodeValue(r))
  {
    var v := ResetCodeValue(r);
    Text.DecSixDigits(v);
    Text.DecValue(v);
    Text.Dec(v)
  }

  // ---- lookups ----

  /** The first user satisfying `p`, as `findOne` returns it. */
  function FirstWhere(users: seq<User>, p: User -> bool): (r: Option<nat>)
    ensures r.None? <==> forall k :: 0 <= k < |users| ==> !p(users[k])
    ensures r.Some? ==> r.value < |users| && p(users[r.value])
    ensures r.Some? ==> forall k :: 0 <= k < r.value ==> !p(users[k])
  {
    if |users| == 0 then None
    else if p(users[0]) then Some(0)
    else
      var rest := FirstWhere(users[1..], p);
      assert forall k :: 1 <= k < |users| ==> users[k] == users[1..][k - 1];
      if rest.None? then None else Some(rest.value + 1)
  }

  /** `User.findOne({ email })`. */
  function FindByEmail(users: seq<User>, email: string): (r: Option<nat>)
    ensures r.None? <==> forall k :: 0 <= k < |users| ==> users[k].email != email
    ensures r.Some? ==> r.value < |users| && users[r.value].email == email
  {
    FirstWhere(users, (u: User) => u.email == email)
  }

  /** No two accounts share an email address. */
  predicate UniqueEmails(users: seq<User>) {
    forall i, j :: 0 <= i < j < |users| ==> users[i].email != users[j].email
  }

  /** With unique addresses, the account found for an email is the only one
      holding it. */
  lemma FoundIsOnly(users: seq<User>, email: string, k: nat)
    requires UniqueEmails(users) && k < |users| && users[k].email == email
    ensures FindByEmail(users, email) == Some(k)
  {
    var i := FindByEmail(users, email).value;
    assert users[i].email == users[k].email;
  }

  /** Replacing an account by one with the same email keeps addresses unique. */
  lemma SameEmailKeepsUnique(users: seq<User>, i: nat, u: User)
    requires UniqueEmails(users) && i < |users| && u.email == users[i].email
    ensures UniqueEmails(users[i := u])
  {
    var r := users[i := u];
    assert forall k :: 0 <= k < |r| ==> r[k].email == users[k].email;
  }

  // ---- register ----

  /** The account `register` creates: the name as the `trim()` sanitizer left
      it, the password hash, and role "user" unless one was given. */
  function NewUser(id: Id, name: string, email: string, hashed: string, role: Option<string>): (u: User)
    ensures u.id == id && u.email == email && u.password == hashed
    ensures u.name == Text.Trim(name)
    ensures role.None? ==> u.role == DefaultRole
    ensures role.Some? ==> u.role == role.value
    ensures u.resetToken.None? && u.resetExpires.None?
  {
    User(id, Text.Trim(name), email, hashed, if role.Some? then role.value else DefaultRole, None, None)
  }

  /** Registering a new address keeps addresses unique. */
  lemma RegisterKeepsUnique(users: seq<User>, u: User)
    requires UniqueEmails(users) && FindByEmail(users, u.email).None?
    ensures UniqueEmails(users + [u])
  {
    var r := users + [u];
    forall i, j | 0 <= i < j < |r|
      ensures r[i].email != r[j].email
    {
      assert r[i] == users[i];
      if j < |users| {
        assert r[j] == users[j];
      }
    }
  }

  datatype RegisterOutcome = RegisterInvalid | EmailTaken | Registered(user: User)

  function RegisterStatus(o: RegisterOutcome): (status: int)
    ensures o.Registered? <==> status == 201
  {
    if o.Registered? then 201 else 400
  }

  // ---- login ----

  datatype LoginOutcome = LoginInvalid | NoAccount | WrongPassword | LoggedIn(user: User)

  /** The HTTP status `login` answers with. */
  function LoginStatus(o: LoginOutcome): (status: int)
    ensures status == 200 <==> o.LoggedIn?
    ensures status == 400 <==> o.LoginInvalid?
    ensures status == 404 <==> o.NoAccount?
    ensures status == 401 <==> o.WrongPassword?
  {
    match o
    case LoginInvalid => 400
    case NoAccount => 404
    case WrongPassword => 401
    case LoggedIn(_) => 200
  }

  /** `login`: invalid input 400, unknown email 404, a password `compare`
      rejects 401, otherwise the account. */
  function Login(users: seq<User>, valid: bool, email: string, password: string,
                 compare: (string, string) -> bool): (r: LoginOutcome)
    ensures !valid ==> r == LoginInvalid
    ensures valid ==> (r == NoAccount <==> FindByEmail(users, email).None?)
    ensures valid && FindByEmail(users, email).Some? ==>
      var u := users[FindByEmail(users, email).value];
      (r == WrongPassword <==> !compare(password, u.password)) &&
      (r.LoggedIn? <==> compare(password, u.password)) &&
      (r.LoggedIn? ==> r.user == u)
    ensures LoginStatus(r) == 200 <==> r.LoggedIn?
  {
    if !valid then LoginInvalid
    else
      match FindByEmail(users, email)
      case None => NoAccount
      case Some(i) => if compare(password, users[i].password) then LoggedIn(users[i]) else WrongPassword
  }

  // ---- forgot / reset password ----

  /** The account after `forgotPassword` stored a code: its SHA-256 and the
      expiry. */
  function IssueToken(u: User, code: string, now: int, env: Option<int>, sha: string -> string): (v: User)
    ensures v.resetToken == Some(sha(code)) && v.resetExpires == Some(ResetExpiry(now, env))
    ensures v.id == u.id && v.email == u.email && v.password == u.password
    ensures v.name == u.name && v.role == u.role
  {
    u.(resetToken := Some(sha(code)), resetExpires := Some(ResetExpiry(now, env)))
  }

  /** The filter of `resetPassword`'s `findOne`: this email, this token hash,
      and an expiry strictly after now. */
  predicate Redeemable(u: User, email: string, tokenHash: string, now: int) {
    u.email == email && u.resetToken == Some(tokenHash) && u.resetExpires.Some? && u.resetExpires.value > now
  }

  function FindRedeemable(users: seq<User>, email: string, tokenHash: string, now: int): (r: Option<nat>)
    ensures r.None? <==> forall k :: 0 <= k < |users| ==> !Redeemable(users[k], email, tokenHash, now)
    ensures r.Some? ==> r.value < |users| && Redeemable(users[r.value], email, tokenHash, now)
  {
    FirstWhere(users, (u: User) => Redeemable(u, email, tokenHash, now))
  }

  /** The account after a successful reset: the new hash, token and expiry
      cleared. */
  function Redeemed(u: User, hashed: string): (v: User)
    ensures v.email == u.email && v.password == hashed
    ensures v.resetToken.None? && v.resetExpires.None?
    ensures v.id == u.id && v.name == u.name && v.role == u.role
  {
    u.(password := hashed, resetToken := None, resetExpires := None)
  }

  /** With unique addresses, a reset succeeds exactly when the account with
      that email holds the code's hash and its expiry has not passed. */
  lemma RedeemableIff(users: seq<User>, email: string, tokenHash: string, now: int)
    requires UniqueEmails(users)
    ensures FindByEmail(users, email).None? ==> FindRedeemable(users, email, tokenHash, now).None?
    ensures FindByEmail(users, email).Some? ==>
      var u := users[FindByEmail(users, email).value];
      (FindRedeemable(users, email, tokenHash, now).Some? <==>
        u.resetToken == Some(tokenHash) && u.resetExpires.Some? && u.resetExpires.value > now)
  {
    var r := FindRedeemable(users, email, tokenHash, now);
    if r.Some? {
      FoundIsOnly(users, email, r.value);
    }
  }

  /** A code is good once: after a successful reset no code redeems that
      account again, at any later time. */
  lemma ResetIsOneTime(users: seq<User>, email: string, tokenHash: string, now: int,
                       hashed: string, tokenHash': string, later: int)
    requires UniqueEmails(users)
    requires FindRedeemable(users, email, tokenHash, now).Some?
    ensures var i := FindRedeemable(users, email, tokenHash, now).value;
      FindRedeemable(users[i := Redeemed(users[i], hashed)], email, tokenHash', later).None?
  {
    var i := FindRedeemable(users, email, tokenHash, now).value;
    var after := users[i := Redeemed(users[i], hashed)];
    forall k | 0 <= k < |after| && k != i
      ensures after[k] == users[k]
    {
    }
  }

  /** A code issued at `issuedAt` redeems its account at `now` exactly when
      the hashes agree and the expiry is still ahead. */
  lemma IssuedCodeRedeemsUntilExpiry(users: seq<User>, i: nat, code: string, issuedAt: int,
                                     env: Option<int>, sha: string -> string, attempt: string, now: int)
    requires UniqueEmails(users) && i < |users|
    ensures var after := users[i := IssueToken(users[i], code, issuedAt, env, sha)];
      FindRedeemable(after, users[i].email, sha(attempt), now).Some? <==>
        sha(attempt) == sha(code) && now < ResetExpiry(issuedAt, env)
  {
    var after := users[i := IssueToken(users[i], code, issuedAt, env, sha)];
    SameEmailKeepsUnique(users, i, IssueToken(users[i], code, issuedAt, env, sha));
    FoundIsOnly(after, users[i].email, i);
    RedeemableIff(after, users[i].email, sha(attempt), now);
  }

  datatype ForgotOutcome = ForgotInvalid | Acknowledged | CodeMailed(code: string) | MailFailed

  /** The HTTP status `forgotPassword` answers with: an unknown email gets
      the same 200 as a mailed code. */
  function ForgotStatus(o: ForgotOutcome): (status: int)
    ensures status == 200 <==> o.Acknowledged? || o.CodeMailed?
    ensures status == 400 <==> o.ForgotInvalid?
    ensures status == 500 <==> o.MailFailed?
  {
    match o
    case ForgotInvalid => 400
    case Acknowledged => 200
    case CodeMailed(_) => 200
    case MailFailed => 500
  }

  datatype ResetOutcome = ResetInvalid | CodeRejected | PasswordReset

  function ResetStatus(o: ResetOutcome): (status: int)
    ensures o.PasswordReset? <==> status == 200
  {
    if o.PasswordReset? then 200 else 400
  }

  // ---- logout and the Bearer header ----

  /** `authHeader.split(" ")[1]` for a header starting with "Bearer ": the
      text after the prefix up to the next space. */
  function BearerToken(header: string): (token: string)
    requires Text.StartsWith(header, BearerPrefix)
    ensures token == Text.UpToSpace(header[|BearerPrefix|..])
    ensures token == "" <==> |header| == |BearerPrefix| || header[|BearerPrefix|] == ' '
  {
    var rest := header[|BearerPrefix|..];
    assert header == "Bearer" + [' '] + rest by {
      assert header[..|BearerPrefix|] == BearerPrefix;
    }
    Text.SplitOnFirst("Bearer", ' ', rest);
    Text.SplitFirstField(rest);
    Text.SplitOn(header, ' ')[1]
  }

  datatype LogoutOutcome = LogoutUnauthorized | LoggedOut

  /** `logout`: a missing or non-Bearer header is 401; otherwise the token
      must pass `jwt.verify`. */
  function Logout(header: Option<string>, verifies: string -> bool): (r: LogoutOutcome)
    ensures header.None? || !Text.StartsWith(header.value, BearerPrefix) ==> r == LogoutUnauthorized
    ensures r == LoggedOut <==>
      header.Some? && Text.StartsWith(header.value, BearerPrefix) && verifies(BearerToken(header.value))
  {
    if header.None? || !Text.StartsWith(header.value, BearerPrefix) then LogoutUnauthorized
    else if verifies(BearerToken(header.value)) then LoggedOut
    else LogoutUnauthorized
  }

  /** The users collection. */
  class UserStore {
    var users: seq<User>
    var nextId: Id

    /** Addresses are unique and every id is below the next one issued. */
    ghost predicate Valid()
      reads this
    {
      UniqueEmails(users) && forall k :: 0 <= k < |users| ==> users[k].id < nextId
    }

    constructor ()
      ensures users == [] && nextId == 0
      ensures Valid()
    {
      users := [];
      nextId := 0;
    }

    /** `register`: invalid input 400, a taken address 400; otherwise one
        account is created. */
    method Register(valid: bool, name: string, email: string, password: string,
                    role: Option<string>, hash: string -> string) returns (r: RegisterOutcome)
      modifies this
      ensures !valid ==> r == RegisterInvalid
      ensures valid ==> (r == EmailTaken <==> FindByEmail(old(users), email).Some?)
      ensures r.Registered? ==> r.user == NewUser(old(nextId), name, email, hash(password), role)
      ensures r.Registered? ==> users == old(users) + [r.user] && nextId == old(nextId) + 1
      ensures !r.Registered? ==> users == old(users) && nextId == old(nextId)
      ensures old(Valid()) ==> Valid()
    {
      if !valid {
        return RegisterInvalid;
      }
      if FindByEmail(users, email).Some? {
        return EmailTaken;
      }
      var u := NewUser(nextId, name, email, hash(password), role);
      if UniqueEmails(users) {
        RegisterKeepsUnique(users, u);
      }
      users := users + [u];
      nextId := nextId + 1;
      r := Registered(u);
    }

    /** `forgotPassword`: an unknown address still gets a success answer and
        changes nothing; a known one stores the code's hash and expiry, then
        the mail is sent (a mail failure is a 500 after the store). */
    method ForgotPassword(valid: bool, email: string, r: real, now: int, env: Option<int>,
                          sha: string -> string, mailOk: bool) returns (out: ForgotOutcome)
      requires 0.0 <= r < 1.0
      modifies this
      ensures !valid ==> out == ForgotInvalid
      ensures valid && FindByEmail(old(users), email).None? ==> out == Acknowledged
      ensures !valid || FindByEmail(old(users), email).None? ==> users == old(users)
      ensures valid && FindByEmail(old(users), email).Some? ==>
        var i := FindByEmail(old(users), email).value;
        users == old(users)[i := IssueToken(old(users)[i], GenerateResetCode(r), now, env, sha)] &&
        out == (if mailOk then CodeMailed(GenerateResetCode(r)) else MailFailed)
      ensures nextId == old(nextId)
      ensures old(Valid()) ==> Valid()
    {
      if !valid {
        return ForgotInvalid;
      }
      var found := FindByEmail(users, email);
      if found.None? {
        return Acknowledged;
      }
      var i := found.value;
      var code := GenerateResetCode(r);
      var u := IssueToken(users[i], code, now, env, sha);
      if UniqueEmails(users) {
        SameEmailKeepsUnique(users, i, u);
      }
      users := users[i := u];
      out := if mailOk then CodeMailed(code) else MailFailed;
    }

    /** `resetPassword`: the password changes, and the token and expiry are
        cleared, only on the account this email, code hash and unexpired
        expiry select; otherwise 400 and nothing changes. */
    method ResetPassword(valid: bool, email: string, code: string, newPassword: string, now: int,
                         sha: string -> string, hash: string -> string) returns (out: ResetOutcome)
      modifies this
      ensures !valid ==> out == ResetInvalid
      ensures valid ==> (out == PasswordReset <==> FindRedeemable(old(users), email, sha(code), now).Some?)
      ensures out == PasswordReset ==>
        var i := FindRedeemable(old(users), email, sha(code), now).value;
        users == old(users)[i := Redeemed(old(users)[i], hash(newPassword))]
      ensures out != PasswordReset ==> users == old(users)
      ensures nextId == old(nextId)
      ensures old(Valid()) ==> Valid()
    {
      if !valid {
        return ResetInvalid;
      }
      var found := FindRedeemable(users, email, sha(code), now);
      if found.None? {
        return CodeRejected;
      }
      var i := found.value;
      var u := Redeemed(users[i], hash(newPassword));
      if UniqueEmails(users) {
        SameEmailKeepsUnique(users, i, u);
      }
      users := users[i := u];
      out := PasswordReset;
    }
  }
}
