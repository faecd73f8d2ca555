/** Properties relating several calls of the service transitions, or a call to
    an independent description of when it succeeds. */
module AuthProperties {
  import opened Wrappers
  import opened JsText
  import opened Validation
  import opened Schema
  import opened Tokens
  import opened AuthService

  // ---------------------------------------------------------------- registerUser

  /** `registerUser` tries its checks in a fixed order and reports the first that
      fails, touching neither table. */
  lemma RegisterChecksInOrder(s: Store, input: RegisterInput, now: int, hashed: string, f: Fresh)
    ensures var r := Register(s, input, now, hashed, f);
      && (Falsy(input.email) || Falsy(input.password) ==> r == Step(s, Failure(MissingCredentials)))
      && (!Falsy(input.email) && !Falsy(input.password) ==>
            var e, p := input.email.value, input.password.value;
            && (!ValidateEmail(e) ==> r == Step(s, Failure(InvalidEmailFormat)))
            && (ValidateEmail(e) && !ValidatePassword(p).isValid ==>
                  r == Step(s, Failure(WeakPassword(ValidatePassword(p).errors))))
            && (ValidateEmail(e) && ValidatePassword(p).isValid && e in Emails(s.users) ==>
                  r == Step(s, Failure(UserExists))))
  {
  }

  /** The conditions under which a registration goes through when the random values
      are fresh: every check passes and the row fits the column widths. */
  predicate Acceptable(s: Store, input: RegisterInput, now: int, hashed: string, f: Fresh) {
    && !Falsy(input.email) && !Falsy(input.password)
    && ValidateEmail(input.email.value)
    && ValidatePassword(input.password.value).isValid
    && input.email.value !in Emails(s.users)
    && input.firstName.Some? && input.lastName.Some?
    && UserFits(NewUser(input.email.value, input.firstName.value, input.lastName.value, now, hashed, f))
  }

  lemma {:induction false} RegisterSucceedsIff(s: Store, input: RegisterInput, now: int, hashed: string, f: Fresh)
    requires FreshFor(s, f)
    ensures Register(s, input, now, hashed, f).result.Success? <==> Acceptable(s, input, now, hashed, f)
    ensures Register(s, input, now, hashed, f).result.Failure? ==> Register(s, input, now, hashed, f).store == s
  {
    if Acceptable(s, input, now, hashed, f) {
      AcceptedRegistrationSucceeds(s, input, now, hashed, f);
    } else {
      RegistrationSuccessIsAcceptable(s, input, now, hashed, f);
      RegistrationFailureKeepsStore(s, input, now, hashed, f);
    }
  }

  lemma AcceptedRegistrationSucceeds(s: Store, input: RegisterInput, now: int, hashed: string, f: Fresh)
    requires FreshFor(s, f) && Acceptable(s, input, now, hashed, f)
    ensures Register(s, input, now, hashed, f).result.Success?
  {
    var user := NewUser(input.email.value, input.firstName.value, input.lastName.value, now, hashed, f);
    InsertedUserOwnsFreshRow(s, user, f, now);
  }

  /** Once the user row is in, the token row of a fresh oracle goes in too. */
  lemma InsertedUserOwnsFreshRow(s: Store, user: User, f: Fresh, now: int)
    requires FreshFor(s, f) && InsertUser(s, user).Some?
    ensures InsertToken(InsertUser(s, user).value, NewTokenRow(user.id, f, now)).Some?
  {
    var s1 := InsertUser(s, user).value;
    assert user.id in UserIds(s1.users) by {
      assert user in s1.users;
    }
    FreshRowInserts(s1, user.id, f, now);
  }

  lemma RegistrationSuccessIsAcceptable(s: Store, input: RegisterInput, now: int, hashed: string, f: Fresh)
    ensures Register(s, input, now, hashed, f).result.Success? ==> Acceptable(s, input, now, hashed, f)
  {
  }

  /** With a fresh oracle only the validation steps can fail, and they write nothing. */
  lemma RegistrationFailureKeepsStore(s: Store, input: RegisterInput, now: int, hashed: string, f: Fresh)
    requires FreshFor(s, f)
    ensures Register(s, input, now, hashed, f).result.Failure? ==> Register(s, input, now, hashed, f).store == s
  {
    if input.email.Some? && input.firstName.Some? && input.lastName.Some? {
      var user := NewUser(input.email.value, input.firstName.value, input.lastName.value, now, hashed, f);
      if InsertUser(s, user).Some? {
        InsertedUserOwnsFreshRow(s, user, f, now);
      }
    }
  }

  /** A well-formed address with a password breaking both rules is refused with
      one message: the length problem, ". ", then the complexity problem. */
  lemma WeakPasswordMessage(s: Store, input: RegisterInput, now: int, hashed: string, f: Fresh)
    requires !Falsy(input.email) && !Falsy(input.password)
    requires ValidateEmail(input.email.value)
    requires Utf16Length(input.password.value) < PasswordMinLength
    requires !PasswordRegexSemantics(input.password.value)
    ensures var r := Register(s, input, now, hashed, f);
            && r.store == s
            && r.result == Failure(WeakPassword([LengthError, ComplexityError]))
            && Message(r.result.error) == Some(LengthError + ". " + ComplexityError)
  {
    var check := ValidatePassword(input.password.value);
    assert LengthError != ComplexityError by {
      assert |LengthError| < |ComplexityError|;
    }
    TwoDistinctMembers(check.errors, LengthError, ComplexityError);
    var errors := [LengthError, ComplexityError];
    assert Register(s, input, now, hashed, f) == Step(s, Failure(WeakPassword(errors)));
    assert errors[1..] == [ComplexityError];
    assert Join(errors, ". ") == LengthError + ". " + ComplexityError;
  }

  /** A sequence holding two different values has at least two elements. */
  lemma TwoDistinctMembers<T>(xs: seq<T>, a: T, b: T)
    requires a != b && a in xs && b in xs
    ensures |xs| >= 2
  {
    var i :| 0 <= i < |xs| && xs[i] == a;
    var j :| 0 <= j < |xs| && xs[j] == b;
    assert i != j;
  }

  /** `"short1"` breaks both rules, so whatever well-formed address comes with it
      the registration is refused with the two problems joined. */
  lemma ShortPasswordMessage(s: Store, input: RegisterInput, now: int, hashed: string, f: Fresh)
    requires !Falsy(input.email) && ValidateEmail(input.email.value)
    requires input.password == Some("short1")
    ensures var r := Register(s, input, now, hashed, f);
            r.store == s && Message(r.result.error) == Some(LengthError + ". " + ComplexityError)
  {
    ShortFacts(input.password.value);
    PasswordRegexCorrect(input.password.value);
    WeakPasswordMessage(s, input, now, hashed, f);
  }

  /** Registering an ASCII address with no capital letter and logging in with the
      same credentials works, provided the hash verifies the password. */
  lemma {:induction false} RegisterThenLogin(s: Store, input: RegisterInput, now: int, hashed: string, f: Fresh,
                                             later: int, g: Fresh, passwordMatches: (string, string) -> bool)
    requires Register(s, input, now, hashed, f).result.Success?
    requires IsAscii(input.email.value) && LocaleLower(input.email.value) == input.email.value
    requires passwordMatches(input.password.value, hashed)
    requires FreshFor(Register(s, input, now, hashed, f).store, g)
    ensures Login(Register(s, input, now, hashed, f).store, input.email, input.password, later, g, passwordMatches).result.Success?
  {
    var r := Register(s, input, now, hashed, f);
    var user := r.result.value.user;
    var e := input.email.value;
    assert FindUserByEmail(r.store.users, e) == Some(user) by {
      FirstWithEmailAfterAppend(s.users, user);
    }
    assert user.id in UserIds(r.store.users) by {
      assert user in r.store.users;
    }
    FreshRowInserts(r.store, user.id, g, later);
  }

  /** In `users + [u]` where no earlier row has `u`'s email, the lookup finds `u`. */
  lemma {:induction false} FirstWithEmailAfterAppend(users: seq<User>, u: User)
    requires u.email !in Emails(users)
    ensures FindUserByEmail(users + [u], u.email) == Some(u)
  {
    if users != [] {
      assert users[0] in users;
      assert (users + [u])[1..] == users[1..] + [u];
      assert Emails(users[1..]) <= Emails(users) by {
        forall v | v in users[1..] ensures v in users { }
      }
      FirstWithEmailAfterAppend(users[1..], u);
    } else {
      assert users + [u] == [u];
    }
  }

  // ---------------------------------------------------------------- loginUser

  /** An unknown address and a wrong password are reported identically, so the
      answer does not reveal whether an account exists. The address is ASCII, so
      the model's lowering is the one JavaScript applies. */
  lemma LoginRejectionIsUniform(s: Store, email: string, password: string, now: int, f: Fresh,
                                passwordMatches: (string, string) -> bool)
    requires Valid(s)
    requires email != [] && password != [] && IsAscii(email)
    ensures var r := Login(s, Some(email), Some(password), now, f, passwordMatches);
      (r.result == Failure(InvalidCredentials))
      <==> !exists u :: u in s.users && u.email == LocaleLower(email) && passwordMatches(password, u.passwordHash)
    ensures var r := Login(s, Some(email), Some(password), now, f, passwordMatches);
      r.result == Failure(InvalidCredentials) ==> r.store == s
  {
    var found := FindUserByEmail(s.users, LocaleLower(email));
    if found.Some? {
      forall u | u in s.users && u.email == LocaleLower(email) ensures u == found.value {
        var i :| 0 <= i < |s.users| && s.users[i] == u;
        var j :| 0 <= j < |s.users| && s.users[j] == found.value;
        assert i == j;
      }
    }
  }

  /** The login lookup only sees the lower-cased address: two addresses that differ
      only in the case of ASCII letters get the same answer. */
  lemma LoginIgnoresEmailCase(s: Store, a: string, b: string, password: Option<string>, now: int, f: Fresh,
                              passwordMatches: (string, string) -> bool)
    requires LocaleLower(a) == LocaleLower(b)
    ensures Login(s, Some(a), password, now, f, passwordMatches) == Login(s, Some(b), password, now, f, passwordMatches)
  {
    assert |a| == |LocaleLower(a)| == |b|;
  }

  /** An ASCII address whose lower-cased form no user has is refused as bad credentials. */
  lemma LoginUnknownAddress(s: Store, email: string, password: string, now: int, f: Fresh,
                            passwordMatches: (string, string) -> bool)
    requires email != [] && password != [] && IsAscii(email)
    requires LocaleLower(email) !in Emails(s.users)
    ensures Login(s, Some(email), Some(password), now, f, passwordMatches) == Step(s, Failure(InvalidCredentials))
  {
  }

  /** With fresh random values, a login with an ASCII address succeeds exactly when
      some user has the lower-cased address and the hash verifies the password. */
  lemma LoginSucceedsIff(s: Store, email: string, password: string, now: int, f: Fresh,
                         passwordMatches: (string, string) -> bool)
    requires Valid(s) && FreshFor(s, f)
    requires email != [] && password != [] && IsAscii(email)
    ensures Login(s, Some(email), Some(password), now, f, passwordMatches).result.Success?
        <==> exists u :: u in s.users && u.email == LocaleLower(email) && passwordMatches(password, u.passwordHash)
  {
    LoginRejectionIsUniform(s, email, password, now, f, passwordMatches);
    var found := FindUserByEmail(s.users, LocaleLower(email));
    if found.Some? && passwordMatches(password, found.value.passwordHash) {
      assert InsertToken(s, NewTokenRow(found.value.id, f, now)).Some?;
    }
  }

  // ---------------------------------------------------------------- refreshAccessToken

  /** In a valid store a token value names at most one row. */
  lemma TokenRowUnique(s: Store, a: RefreshToken, b: RefreshToken)
    requires Valid(s) && a in s.tokens && b in s.tokens && a.token == b.token
    ensures a == b
  {
    var i :| 0 <= i < |s.tokens| && s.tokens[i] == a;
    var j :| 0 <= j < |s.tokens| && s.tokens[j] == b;
    assert i == j;
  }

  /** A refresh succeeds exactly when an unrevoked row holds the value and `now`
      has not passed its expiry: `now == expiresAt` is still accepted. */
  lemma RefreshSucceedsIff(s: Store, v: string, now: int)
    requires Valid(s) && v != []
    ensures Refresh(s, Some(v), now).result.Success? <==> exists t :: t in s.tokens && t.token == v && Usable(t, now)
  {
    var found := FindToken(s.tokens, And(TokenIs(v), NotRevoked));
    if t :| t in s.tokens && t.token == v && Usable(t, now) {
      UnrevokedMatch(t, v);
      assert found.Some?;
      UnrevokedMatch(found.value, v);
      TokenRowUnique(s, t, found.value);
      assert found.value.userId in UserIds(s.users);
    }
  }

  /** An expired refresh revokes the one row holding the value and changes nothing else. */
  lemma RefreshExpiryRevokesOnlyThatRow(s: Store, v: string, now: int)
    requires Valid(s)
    requires Refresh(s, Some(v), now).result == Failure(RefreshTokenExpired)
    ensures var after := Refresh(s, Some(v), now).store;
      && after.users == s.users && |after.tokens| == |s.tokens|
      && forall i :: 0 <= i < |s.tokens| ==>
           after.tokens[i] == (if s.tokens[i].token == v then Revoked(s.tokens[i]) else s.tokens[i])
  {
    var after := Refresh(s, Some(v), now).store;
    var t :| t in s.tokens && t.token == v && !t.isRevoked && now > t.expiresAt
             && after.tokens == RevokeWhere(s.tokens, IdIs(t.id));
    forall i | 0 <= i < |s.tokens|
      ensures after.tokens[i] == (if s.tokens[i].token == v then Revoked(s.tokens[i]) else s.tokens[i])
    {
      var k :| 0 <= k < |s.tokens| && s.tokens[k] == t;
      if s.tokens[i].id == t.id || s.tokens[i].token == v {
        assert i == k;
      }
    }
  }

  /** An unrevoked row past its expiry is revoked by its id, and the refresh with
      its value is reported expired. */
  lemma RefreshExpiredRowIsRevoked(s: Store, t: RefreshToken, now: int)
    requires Valid(s) && t in s.tokens && t.token != [] && !t.isRevoked && now > t.expiresAt
    ensures Refresh(s, Some(t.token), now).result == Failure(RefreshTokenExpired)
    ensures Refresh(s, Some(t.token), now).store == Store(s.users, RevokeWhere(s.tokens, IdIs(t.id)))
  {
    var found := FindToken(s.tokens, And(TokenIs(t.token), NotRevoked));
    UnrevokedMatch(t, t.token);
    assert found.Some?;
    UnrevokedMatch(found.value, t.token);
    TokenRowUnique(s, t, found.value);
  }

  /** Once a refresh has found the token expired, the same value is unknown. */
  lemma ExpiredTokenStaysRejected(s: Store, v: string, now: int, later: int)
    requires Valid(s)
    requires Refresh(s, Some(v), now).result == Failure(RefreshTokenExpired)
    ensures Refresh(Refresh(s, Some(v), now).store, Some(v), later).result == Failure(InvalidRefreshToken)
  {
    RefreshExpiryRevokesOnlyThatRow(s, v, now);
    var after := Refresh(s, Some(v), now).store;
    RowsRefusingValue(after.tokens, v);
  }

  lemma RowsRefusingValue(tokens: seq<RefreshToken>, v: string)
    requires forall i :: 0 <= i < |tokens| ==> tokens[i].token != v || tokens[i].isRevoked
    ensures forall t :: t in tokens ==> t.token != v || t.isRevoked
  {
  }

  /** The refresh token is not rotated: a successful refresh writes nothing, so the
      same value keeps working. */
  lemma RefreshDoesNotRotate(s: Store, v: Option<string>, now: int)
    requires Refresh(s, v, now).result.Success?
    ensures Refresh(s, v, now).store == s
    ensures Refresh(Refresh(s, v, now).store, v, now) == Refresh(s, v, now)
  {
  }

  // ---------------------------------------------------------------- logoutUser

  /** Logging out twice with the same value is logging out once. */
  lemma LogoutIdempotent(s: Store, v: Option<string>)
    ensures Logout(Logout(s, v).store, v) == Logout(s, v)
  {
    if !Falsy(v) {
      var once := Logout(s, v).store;
      var twice := Logout(once, v).store;
      assert twice.tokens == once.tokens by {
        forall i | 0 <= i < |s.tokens| ensures twice.tokens[i] == once.tokens[i] {
        }
      }
    }
  }

  /** After logging out with a value, refreshing with it is refused. */
  lemma LogoutThenRefreshRejected(s: Store, v: string, now: int)
    requires v != []
    ensures Refresh(Logout(s, Some(v)).store, Some(v), now).result == Failure(InvalidRefreshToken)
  {
    var after := Logout(s, Some(v)).store;
    RowsRefusingValue(after.tokens, v);
  }

  // ---------------------------------------------------------------- cleanupExpiredTokens

  /** A second cleanup straight after the first flips nothing and reports zero. */
  lemma CleanupTwiceCountsZero(s: Store)
    ensures var first := CleanupExpiredTokens(s);
            var second := CleanupExpiredTokens(first.store);
            second.rowCount == 0 && second.store == first.store
  {
    var first := CleanupExpiredTokens(s);
    var second := CleanupExpiredTokens(first.store);
    assert PositionsWhere(first.store.tokens, NotRevoked) == {};
    assert second.store.tokens == first.store.tokens;
  }
}
