/** The credential and refresh-token lifecycle of `auth-service.ts`: one pure
    transition per exported operation over the two tables, with the clock, the
    random values and the password hash supplied by the caller. */
module AuthService {
  import opened Wrappers
  import opened JsText
  import opened Validation
  import opened Schema
  import opened Tokens

  /** `7 * 24 * 60 * 60 * 1000`: a refresh token lives seven days. */
  const RefreshTokenLifetimeMs: int := 604_800_000

  /** Why an operation returned `success: false`. */
  datatype AuthError =
    | MissingCredentials
    | InvalidEmailFormat
    | WeakPassword(problems: seq<string>)
    | UserExists
    | NameNotString      // `.trim()` called on a missing first or last name
    | InsertRejected     // the database refused an insert
    | InvalidCredentials
    | RefreshTokenRequired
    | InvalidRefreshToken
    | RefreshTokenExpired
    | OwnerMissing       // a token whose `user` relation resolved to nothing

  /** The `error` text returned to the caller, where the service itself writes it
      (driver messages are not modelled). */
  function Message(e: AuthError): (m: Option<string>)
    ensures m.None? <==> e.InsertRejected?
    ensures m.Some? && !e.WeakPassword? ==> m.value != []
  {
    match e
    case MissingCredentials => Some("Email and password are required")
    case InvalidEmailFormat => Some("Invalid email format")
    case WeakPassword(problems) => Some(Join(problems, ". "))
    case UserExists => Some("User already exists with this email")
    case NameNotString => Some("Cannot read properties of undefined (reading 'trim')")
    case InsertRejected => None
    case InvalidCredentials => Some("Invalid email or password")
    case RefreshTokenRequired => Some("Refresh token is required")
    case InvalidRefreshToken => Some("Invalid refresh token")
    case RefreshTokenExpired => Some("Refresh token expired")
    case OwnerMissing => Some("Cannot read properties of null (reading 'id')")
  }

  /** The store after an operation and what the operation returned. */
  datatype Step<T> = Step(store: Store, result: Result<T, AuthError>)

  /** The values the source draws from `crypto`: the user id (`randomUUID`), the
      refresh-token row id (the column's random default) and the 64 random bytes
      behind the refresh token. */
  datatype Fresh = Fresh(userId: Uuid, tokenId: Uuid, entropy: seq<byte>)

  /** The random values collide with nothing already stored, and the byte count is
      the one `generateRefreshToken` asks for. */
  predicate FreshFor(s: Store, f: Fresh) {
    && f.userId !in UserIds(s.users)
    && f.tokenId !in TokenIds(s.tokens)
    && RefreshTokenText(f.entropy) !in TokenValues(s.tokens)
    && |f.entropy| == RefreshTokenBytes
  }

  /** The row `db.insert(refreshTokens).values({ userId, token, expiresAt })` adds:
      id and creation time from the column defaults, `isRevoked` defaulting to false. */
  function NewTokenRow(userId: Uuid, f: Fresh, now: int): (t: RefreshToken)
    ensures !t.isRevoked && t.userId == userId && t.expiresAt == now + RefreshTokenLifetimeMs
  {
    RefreshToken(f.tokenId, userId, RefreshTokenText(f.entropy), now + RefreshTokenLifetimeMs, false, now)
  }

  /** Under a fresh oracle the new row of an existing user is always accepted. */
  lemma FreshRowInserts(s: Store, userId: Uuid, f: Fresh, now: int)
    requires f.tokenId !in TokenIds(s.tokens) && RefreshTokenText(f.entropy) !in TokenValues(s.tokens)
    requires |f.entropy| == RefreshTokenBytes && userId in UserIds(s.users)
    ensures InsertToken(s, NewTokenRow(userId, f, now)).Some?
  {
    var row := NewTokenRow(userId, f, now);
    assert row.id == f.tokenId && row.token == RefreshTokenText(f.entropy);
  }

  /** A row the refresh flow would accept: unrevoked and not yet past its expiry. */
  predicate Usable(t: RefreshToken, now: int) {
    !t.isRevoked && now <= t.expiresAt
  }

  /** A token appended for `userId` with the seven-day expiry and nothing else changed. */
  predicate IssuedOneToken(before: seq<RefreshToken>, after: seq<RefreshToken>, userId: Uuid, token: string, now: int) {
    && |after| == |before| + 1
    && after[..|before|] == before
    && var t := after[|before|];
       t.userId == userId && t.token == token && !t.isRevoked && t.expiresAt == now + RefreshTokenLifetimeMs
  }

  // ---------------------------------------------------------------- registerUser

  datatype RegisterInput = RegisterInput(
    email: Option<string>,
    password: Option<string>,
    firstName: Option<string>,
    lastName: Option<string>)

  /** `{ success: true, user, accessToken, refreshToken }`: the full inserted row,
      password hash included. */
  datatype Registered = Registered(user: User, accessToken: Claims, refreshToken: string)

  /** The `users` row `registerUser` inserts: email as given, names trimmed. */
  function NewUser(email: string, first: string, last: string, now: int, hashed: string, f: Fresh): (u: User)
    ensures u.email == email && u.passwordHash == hashed && u.id == f.userId
    ensures u.firstName == Some(Trim(first)) && u.lastName == Some(Trim(last))
  {
    User(f.userId, email, hashed, Some(Trim(first)), Some(Trim(last)), now, now)
  }

  /** `registerUser`. `hashed` is what `bcrypt.hash(password, 12)` returned. */
  function Register(s: Store, input: RegisterInput, now: int, hashed: string, f: Fresh): (r: Step<Registered>)
    ensures r.result.Failure? ==> r.store.tokens == s.tokens
    ensures r.result.Failure? && r.result.error != InsertRejected ==> r.store == s
    ensures r.result.Success? ==>
      && !Falsy(input.email) && !Falsy(input.password)
      && ValidateEmail(input.email.value)
      && ValidatePassword(input.password.value).isValid
      && input.email.value !in Emails(s.users)
    ensures r.result == Failure(UserExists) ==> !Falsy(input.email) && input.email.value in Emails(s.users)
    ensures r.result.Success? ==>
      var out := r.result.value;
      && out.user.email == input.email.value
      && out.user.passwordHash == hashed
      && input.firstName.Some? && out.user.firstName == Some(Trim(input.firstName.value))
      && input.lastName.Some? && out.user.lastName == Some(Trim(input.lastName.value))
      && r.store.users == s.users + [out.user]
      && IssuedOneToken(s.tokens, r.store.tokens, out.user.id, out.refreshToken, now)
      && out.accessToken.userId == out.user.id
    ensures Valid(s) ==> Valid(r.store)
  {
    if Falsy(input.email) || Falsy(input.password) then Step(s, Failure(MissingCredentials))
    else
      var email, password := input.email.value, input.password.value;
      var check := ValidatePassword(password);
      if !ValidateEmail(email) then Step(s, Failure(InvalidEmailFormat))
      else if !check.isValid then Step(s, Failure(WeakPassword(check.errors)))
      else if FindUserByEmail(s.users, email).Some? then Step(s, Failure(UserExists))
      else if input.firstName.None? || input.lastName.None? then Step(s, Failure(NameNotString))
      else
        var user := NewUser(email, input.firstName.value, input.lastName.value, now, hashed, f);
        match InsertUser(s, user)
        case None => Step(s, Failure(InsertRejected))
        case Some(s1) =>
          var row := NewTokenRow(user.id, f, now);
          match InsertToken(s1, row)
          case None => Step(s1, Failure(InsertRejected))
          case Some(s2) => Step(s2, Success(Registered(user, IssueAccessToken(user, now), row.token)))
  }

  // ---------------------------------------------------------------- loginUser

  /** `{ success: true, accessToken, refreshToken }`. */
  datatype LoggedIn = LoggedIn(accessToken: Claims, refreshToken: string)

  /** `loginUser`. `passwordMatches` is `bcrypt.compare`. The lookup lower-cases
      the email but does not trim it. */
  function Login(s: Store, email: Option<string>, password: Option<string>, now: int, f: Fresh,
                 passwordMatches: (string, string) -> bool): (r: Step<LoggedIn>)
    ensures r.store.users == s.users
    ensures r.result.Failure? ==> r.store == s
    ensures r.result.Success? ==>
      !Falsy(email) && !Falsy(password) &&
      exists u :: u in s.users && u.email == LocaleLower(email.value) && passwordMatches(password.value, u.passwordHash)
                  && r.result.value.accessToken.userId == u.id
                  && IssuedOneToken(s.tokens, r.store.tokens, u.id, r.result.value.refreshToken, now)
    ensures Valid(s) ==> Valid(r.store)
  {
    if Falsy(email) || Falsy(password) then Step(s, Failure(MissingCredentials))
    else match FindUserByEmail(s.users, LocaleLower(email.value))
      case None => Step(s, Failure(InvalidCredentials))
      case Some(u) =>
        if !passwordMatches(password.value, u.passwordHash) then Step(s, Failure(InvalidCredentials))
        else
          var row := NewTokenRow(u.id, f, now);
          match InsertToken(s, row)
          case None => Step(s, Failure(InsertRejected))
          case Some(s1) => Step(s1, Success(LoggedIn(IssueAccessToken(u, now), row.token)))
  }

  // ---------------------------------------------------------------- refreshAccessToken

  /** `refreshAccessToken`: finds the first unrevoked row holding the value; an
      expired one (`now > expiresAt`) is revoked by id and refused; otherwise a new
      access token is issued and nothing is written. */
  function Refresh(s: Store, value: Option<string>, now: int): (r: Step<Claims>)
    ensures r.store.users == s.users
    ensures Falsy(value) ==> r == Step(s, Failure(RefreshTokenRequired))
    ensures !Falsy(value) ==>
      (r.result == Failure(InvalidRefreshToken) <==> forall t :: t in s.tokens ==> t.token != value.value || t.isRevoked)
    ensures r.result.Failure? && r.result.error != RefreshTokenExpired ==> r.store == s
    ensures r.result == Failure(RefreshTokenExpired) ==>
      exists t :: t in s.tokens && t.token == value.value && !t.isRevoked && now > t.expiresAt
                  && r.store.tokens == RevokeWhere(s.tokens, IdIs(t.id))
    ensures r.result.Success? ==>
      && r.store == s
      && exists t :: t in s.tokens && t.token == value.value && Usable(t, now) && r.result.value.userId == t.userId
    ensures Valid(s) ==> Valid(r.store)
  {
    if Falsy(value) then Step(s, Failure(RefreshTokenRequired))
    else match FindToken(s.tokens, And(TokenIs(value.value), NotRevoked))
      case None =>
        NoUnrevokedMatch(s.tokens, value.value);
        Step(s, Failure(InvalidRefreshToken))
      case Some(t) =>
        UnrevokedMatch(t, value.value);
        assert t in s.tokens && t.token == value.value && !t.isRevoked;
        if now > t.expiresAt then
          RevokePreservesValid(s, IdIs(t.id));
          Step(Store(s.users, RevokeWhere(s.tokens, IdIs(t.id))), Failure(RefreshTokenExpired))
        else match FindUserById(s.users, t.userId)
          case None => Step(s, Failure(OwnerMissing))
          case Some(u) => Step(s, Success(IssueAccessToken(u, now)))
  }

  lemma UnrevokedMatch(t: RefreshToken, v: string)
    ensures Matches(And(TokenIs(v), NotRevoked), t) <==> t.token == v && !t.isRevoked
  {
  }

  lemma NoUnrevokedMatch(tokens: seq<RefreshToken>, v: string)
    requires forall t :: t in tokens ==> !Matches(And(TokenIs(v), NotRevoked), t)
    ensures forall t :: t in tokens ==> t.token != v || t.isRevoked
  {
    forall t | t in tokens ensures t.token != v || t.isRevoked {
      assert !Matches(And(TokenIs(v), NotRevoked), t);
      assert Matches(And(TokenIs(v), NotRevoked), t) == (Matches(TokenIs(v), t) && Matches(NotRevoked, t));
    }
  }

  // ---------------------------------------------------------------- logoutUser

  /** `logoutUser`: always reports success; with a value, every row holding it is
      revoked, whether or not any exists. */
  function Logout(s: Store, value: Option<string>): (r: Step<()>)
    ensures r.result.Success?
    ensures Falsy(value) ==> r.store == s
    ensures r.store.users == s.users && |r.store.tokens| == |s.tokens|
    ensures !Falsy(value) ==> forall i :: 0 <= i < |s.tokens| ==>
      r.store.tokens[i] == (if s.tokens[i].token == value.value then Revoked(s.tokens[i]) else s.tokens[i])
    ensures Valid(s) ==> Valid(r.store)
  {
    if Falsy(value) then Step(s, Success(()))
    else
      RevokePreservesValid(s, TokenIs(value.value));
      Step(Store(s.users, RevokeWhere(s.tokens, TokenIs(value.value))), Success(()))
  }

  // ---------------------------------------------------------------- cleanupExpiredTokens

  /** The store after a bulk revocation, the number of rows the `UPDATE` affected
      (node-postgres reports it as `rowCount`), and what the operation returns:
      `None` stands for `undefined`. */
  datatype Cleanup = Cleanup(store: Store, rowCount: nat, returned: Option<nat>)

  /** The row positions a condition selects. */
  function PositionsWhere(tokens: seq<RefreshToken>, w: Where): set<nat> {
    set i: nat | i < |tokens| && Matches(w, tokens[i])
  }

  /** `cleanupExpiredTokens` as written: its expiry condition is commented out, so
      every unrevoked row is revoked, live or not. It returns `result.count`, a
      field the node-postgres result does not have, so it returns `undefined`
      whatever the update did. */
  function CleanupExpiredTokens(s: Store): (r: Cleanup)
    ensures r.store.users == s.users && |r.store.tokens| == |s.tokens|
    ensures forall i :: 0 <= i < |s.tokens| ==> r.store.tokens[i] == Revoked(s.tokens[i])
    ensures r.rowCount == |PositionsWhere(s.tokens, NotRevoked)|
    ensures r.returned.None?
    ensures Valid(s) ==> Valid(r.store)
  {
    RevokePreservesValid(s, NotRevoked);
    CountIsPositions(s.tokens, NotRevoked);
    Cleanup(Store(s.users, RevokeWhere(s.tokens, NotRevoked)), CountWhere(s.tokens, NotRevoked), None)
  }

  function Shift(xs: set<nat>): set<nat> {
    set i | i in xs :: i + 1
  }

  lemma {:induction false} ShiftSize(xs: set<nat>)
    ensures |Shift(xs)| == |xs|
    decreases |xs|
  {
    if xs != {} {
      var x :| x in xs;
      var smaller := xs - {x};
      ShiftSize(smaller);
      assert Shift(xs) == Shift(smaller) + {x + 1} by {
        forall i | i in Shift(xs) ensures i in Shift(smaller) + {x + 1} {
          var j :| j in xs && i == j + 1;
          if j != x {
            assert j in smaller;
          }
        }
        forall i | i in Shift(smaller) + {x + 1} ensures i in Shift(xs) {
          if i != x + 1 {
            var j :| j in smaller && i == j + 1;
            assert j in xs;
          }
        }
      }
      assert x + 1 !in Shift(smaller);
    }
  }

  /** The positions in a non-empty table: the first row's, then the rest's moved up by one. */
  lemma PositionsSplit(tokens: seq<RefreshToken>, w: Where)
    requires tokens != []
    ensures PositionsWhere(tokens, w)
            == (if Matches(w, tokens[0]) then {0} else {}) + Shift(PositionsWhere(tokens[1..], w))
  {
    var rest := PositionsWhere(tokens[1..], w);
    var head: set<nat> := if Matches(w, tokens[0]) then {0} else {};
    forall i: nat | i in PositionsWhere(tokens, w) ensures i in head + Shift(rest) {
      if i > 0 {
        assert tokens[1..][i - 1] == tokens[i];
        assert i - 1 in rest;
      }
    }
    forall i | i in Shift(rest) ensures i in PositionsWhere(tokens, w) {
      var j :| j in rest && i == j + 1;
      assert tokens[1..][j] == tokens[i];
    }
  }

  /** The count the update reports is the number of rows it selects. */
  lemma {:induction false} CountIsPositions(tokens: seq<RefreshToken>, w: Where)
    ensures CountWhere(tokens, w) == |PositionsWhere(tokens, w)|
  {
    if tokens != [] {
      var rest := PositionsWhere(tokens[1..], w);
      CountIsPositions(tokens[1..], w);
      ShiftSize(rest);
      PositionsSplit(tokens, w);
      assert 0 !in Shift(rest);
    }
  }
}
