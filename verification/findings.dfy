/** Two places where `auth-service.ts` does not do what its own names and
    neighbouring code promise. Each is modelled as written (the main model) with a
    lemma exhibiting the discrepancy, and as evidently intended with the intended
    property proved. */
module Findings {
  import opened Wrappers
  import opened JsText
  import opened Validation
  import opened Schema
  import opened Tokens
  import opened AuthService
  import opened AuthProperties

  lemma EmailsAfterAppend(users: seq<User>, u: User)
    ensures Emails(users + [u]) == Emails(users) + {u.email}
  {
    var both := users + [u];
    forall e | e in Emails(both) ensures e in Emails(users) + {u.email} {
      var v :| v in both && v.email == e;
      if v != u {
        assert v in users;
      }
    }
    forall e | e in Emails(users) ensures e in Emails(both) {
      var v :| v in users && v.email == e;
      assert v in both;
    }
    assert u in both;
  }

  // ------------------------------------------------------------ e-mail case

  /** A registration stores its address verbatim, so the lower-cased form of a
      mixed-case address is still unknown afterwards. */
  lemma LoweredStillUnknown(s: Store, input: RegisterInput, now: int, hashed: string, f: Fresh)
    requires Register(s, input, now, hashed, f).result.Success?
    requires LocaleLower(input.email.value) != input.email.value
    requires LocaleLower(input.email.value) !in Emails(s.users)
    ensures LocaleLower(input.email.value) !in Emails(Register(s, input, now, hashed, f).store.users)
  {
    var r := Register(s, input, now, hashed, f);
    EmailsAfterAppend(s.users, r.result.value.user);
  }

  /** As written: a registration whose ASCII address has a capital letter succeeds,
      yet, when no user already holds the lower-cased address, logging in with
      exactly the same credentials is refused, because the lookup lower-cases the
      address and the stored one was not. */
  lemma MixedCaseRegistrantCannotLogIn(s: Store, input: RegisterInput, now: int, hashed: string, f: Fresh,
                                       later: int, g: Fresh, passwordMatches: (string, string) -> bool)
    requires Register(s, input, now, hashed, f).result.Success?
    requires IsAscii(input.email.value) && LocaleLower(input.email.value) != input.email.value
    requires LocaleLower(input.email.value) !in Emails(s.users)
    ensures Login(Register(s, input, now, hashed, f).store, input.email, input.password, later, g, passwordMatches).result
            == Failure(InvalidCredentials)
  {
    LoweredStillUnknown(s, input, now, hashed, f);
    LoginUnknownAddress(Register(s, input, now, hashed, f).store, input.email.value, input.password.value,
                        later, g, passwordMatches);
  }

  /** As written: once `"A@b.co"` is registered, `"a@b.co"` is not refused as an
      existing user: two accounts may differ only in letter case. */
  lemma CaseVariantIsNotAConflict(s: Store, input: RegisterInput, now: int, hashed: string, f: Fresh,
                                  variant: RegisterInput, later: int, hashed2: string, g: Fresh)
    requires Register(s, input, now, hashed, f).result.Success?
    requires variant.email == Some(LocaleLower(input.email.value))
    requires LocaleLower(input.email.value) != input.email.value
    requires LocaleLower(input.email.value) !in Emails(s.users)
    ensures Register(Register(s, input, now, hashed, f).store, variant, later, hashed2, g).result != Failure(UserExists)
  {
    LoweredStillUnknown(s, input, now, hashed, f);
  }

  /** The registration of the counterexample: a well-formed address with a capital letter. */
  const MixedCaseInput := RegisterInput(Some("A@b.co"), Some("Valid1Pass!"), Some("Ann"), Some("Lee"))

  /** Names no longer than the column width fit once trimmed. */
  lemma ShortFieldsFit(email: string, first: string, last: string, now: int, hashed: string, f: Fresh)
    requires |email| <= EmailMaxLength && |hashed| <= PasswordHashMaxLength
    requires |first| <= NameMaxLength && |last| <= NameMaxLength
    ensures UserFits(NewUser(email, first, last, now, hashed, f))
  {
  }

  /** Every input whose fields pass the validators and fit the columns is accepted
      on an empty store. */
  lemma AcceptableOnEmptyStore(input: RegisterInput, now: int, hashed: string, f: Fresh)
    requires input.email.Some? && input.password.Some? && input.firstName.Some? && input.lastName.Some?
    requires ValidateEmail(input.email.value) && ValidatePassword(input.password.value).isValid
    requires |input.email.value| <= EmailMaxLength && |hashed| <= PasswordHashMaxLength
    requires |input.firstName.value| <= NameMaxLength && |input.lastName.value| <= NameMaxLength
    ensures Acceptable(Store([], []), input, now, hashed, f)
  {
    ShortFieldsFit(input.email.value, input.firstName.value, input.lastName.value, now, hashed, f);
  }

  /** The fields of the mixed-case input pass both validators. */
  lemma MixedCaseFieldsValid(input: RegisterInput)
    requires input == MixedCaseInput
    ensures input.email.Some? && input.password.Some? && input.firstName.Some? && input.lastName.Some?
    ensures ValidateEmail(input.email.value) && ValidatePassword(input.password.value).isValid
    ensures |input.email.value| <= EmailMaxLength
    ensures |input.firstName.value| <= NameMaxLength && |input.lastName.value| <= NameMaxLength
  {
    MixedCaseEmailIsWellFormed(input.email.value);
    ValidPassExample(input.password.value);
  }

  /** An address with a capital letter passes the shape check: nothing here
      normalises case. */
  lemma MixedCaseEmailIsWellFormed(e: string)
    requires e == "A@b.co"
    ensures ValidateEmail(e)
  {
    assert e[1] == '@' && e[3] == '.';
    assert e[..1] == "A" && e[2..3] == "b" && e[4..] == "co";
  }

  /** The counterexample's address is plain ASCII with a capital letter. */
  lemma MixedCaseEmailIsAscii(e: string)
    requires e == "A@b.co"
    ensures IsAscii(e) && LocaleLower(e) != e
  {
    assert LocaleLower(e)[0] == 'a';
  }

  /** A concrete instance: on an empty store, `"A@b.co"` / `"Valid1Pass!"` registers,
      and logging in with the same pair fails whatever the hash check says. */
  lemma MixedCaseCounterexample(input: RegisterInput, now: int, hashed: string, f: Fresh,
                                later: int, g: Fresh, passwordMatches: (string, string) -> bool)
    requires input == MixedCaseInput && |hashed| <= PasswordHashMaxLength
    requires |f.entropy| == RefreshTokenBytes
    ensures Register(Store([], []), input, now, hashed, f).result.Success?
    ensures Login(Register(Store([], []), input, now, hashed, f).store, input.email, input.password,
                  later, g, passwordMatches).result
            == Failure(InvalidCredentials)
  {
    var s := Store([], []);
    MixedCaseFieldsValid(input);
    AcceptableOnEmptyStore(input, now, hashed, f);
    AcceptedRegistrationSucceeds(s, input, now, hashed, f);
    MixedCaseEmailIsAscii(input.email.value);
    MixedCaseRegistrantCannotLogIn(s, input, now, hashed, f, later, g, passwordMatches);
  }

  /** Corrected: the address is lower-cased before it is checked and stored, the
      same normalisation the login lookup applies. */
  function NormalizeEmail(input: RegisterInput): (n: RegisterInput)
    ensures Falsy(n.email) <==> Falsy(input.email)
    ensures input.email.Some? ==> n.email == Some(LocaleLower(input.email.value))
    ensures n.password == input.password && n.firstName == input.firstName && n.lastName == input.lastName
  {
    match input.email
    case None => input
    case Some(e) => input.(email := Some(LocaleLower(e)))
  }

  function RegisterNormalized(s: Store, input: RegisterInput, now: int, hashed: string, f: Fresh): (r: Step<Registered>)
    ensures r.result.Success? ==>
      && input.email.Some?
      && r.result.value.user.email == LocaleLower(input.email.value)
      && LocaleLower(input.email.value) !in Emails(s.users)
      && r.store.users == s.users + [r.result.value.user]
    ensures Valid(s) ==> Valid(r.store)
  {
    Register(s, NormalizeEmail(input), now, hashed, f)
  }

  /** Corrected: whatever the letter case, a registration is followed by a
      successful login with the same credentials. */
  lemma NormalizedRegisterThenLogin(s: Store, input: RegisterInput, now: int, hashed: string, f: Fresh,
                                    later: int, g: Fresh, passwordMatches: (string, string) -> bool)
    requires RegisterNormalized(s, input, now, hashed, f).result.Success?
    requires passwordMatches(input.password.value, hashed)
    requires FreshFor(RegisterNormalized(s, input, now, hashed, f).store, g)
    ensures Login(RegisterNormalized(s, input, now, hashed, f).store, input.email, input.password, later, g, passwordMatches)
            .result.Success?
  {
    var r := RegisterNormalized(s, input, now, hashed, f);
    var user := r.result.value.user;
    assert FindUserByEmail(r.store.users, LocaleLower(input.email.value)) == Some(user) by {
      FirstWithEmailAfterAppend(s.users, user);
    }
    assert user.id in UserIds(r.store.users) by {
      assert user in r.store.users;
    }
    FreshRowInserts(r.store, user.id, g, later);
  }

  /** Corrected: an address differing only in the case of ASCII letters from a
      registered one cannot open a second account. */
  lemma NormalizedRejectsCaseVariant(s: Store, input: RegisterInput, now: int, hashed: string, f: Fresh,
                                     variant: RegisterInput, later: int, hashed2: string, g: Fresh)
    requires RegisterNormalized(s, input, now, hashed, f).result.Success?
    requires variant.email.Some? && LocaleLower(variant.email.value) == LocaleLower(input.email.value)
    ensures RegisterNormalized(RegisterNormalized(s, input, now, hashed, f).store, variant, later, hashed2, g).result.Failure?
  {
    var r := RegisterNormalized(s, input, now, hashed, f);
    EmailsAfterAppend(s.users, r.result.value.user);
  }

  // ------------------------------------------------------------ token cleanup

  /** As written: cleanup revokes a token that is still usable, so a refresh that
      succeeded just before is refused just after. */
  lemma CleanupRevokesLiveToken(s: Store, t: RefreshToken, now: int)
    requires Valid(s) && t in s.tokens && t.token != [] && Usable(t, now)
    ensures Refresh(s, Some(t.token), now).result.Success?
    ensures Refresh(CleanupExpiredTokens(s).store, Some(t.token), now).result == Failure(InvalidRefreshToken)
  {
    RefreshSucceedsIff(s, t.token, now);
    RowsRefusingValue(CleanupExpiredTokens(s).store.tokens, t.token);
  }

  /** A selected row makes the set of selected positions non-empty. */
  lemma SelectedRowCounts(tokens: seq<RefreshToken>, w: Where, t: RefreshToken)
    requires t in tokens && Matches(w, t)
    ensures |PositionsWhere(tokens, w)| >= 1
  {
    var i :| 0 <= i < |tokens| && tokens[i] == t;
    assert i in PositionsWhere(tokens, w);
  }

  /** As written: the cleanup revokes at least one row, and still returns
      `undefined` rather than the number of rows it revoked. */
  lemma CleanupReturnsUndefined(s: Store, t: RefreshToken)
    requires t in s.tokens && !t.isRevoked
    ensures CleanupExpiredTokens(s).rowCount >= 1
    ensures CleanupExpiredTokens(s).returned == None
  {
    SelectedRowCounts(s.tokens, NotRevoked, t);
  }

  lemma ExpiredUnrevokedMatch(t: RefreshToken, now: int)
    ensures Matches(And(NotRevoked, ExpiresBefore(now)), t) <==> !t.isRevoked && t.expiresAt < now
  {
  }

  /** Corrected: the commented-out condition `expires_at < NOW()` restored, so only
      unrevoked rows already past their expiry are revoked, and the affected-row
      count returned under the name node-postgres gives it, `rowCount`. */
  function CleanupExpiredOnly(s: Store, now: int): (r: Cleanup)
    ensures r.store.users == s.users && |r.store.tokens| == |s.tokens|
    ensures forall i :: 0 <= i < |s.tokens| ==>
      r.store.tokens[i] == (if !s.tokens[i].isRevoked && s.tokens[i].expiresAt < now then Revoked(s.tokens[i]) else s.tokens[i])
    ensures r.rowCount == |PositionsWhere(s.tokens, And(NotRevoked, ExpiresBefore(now)))|
    ensures r.returned == Some(r.rowCount)
    ensures Valid(s) ==> Valid(r.store)
  {
    var w := And(NotRevoked, ExpiresBefore(now));
    RevokePreservesValid(s, w);
    CountIsPositions(s.tokens, w);
    var n := CountWhere(s.tokens, w);
    var r := Cleanup(Store(s.users, RevokeWhere(s.tokens, w)), n, Some(n));
    assert forall i :: 0 <= i < |s.tokens| ==>
      r.store.tokens[i] == (if !s.tokens[i].isRevoked && s.tokens[i].expiresAt < now then Revoked(s.tokens[i]) else s.tokens[i]) by {
      forall i | 0 <= i < |s.tokens|
        ensures r.store.tokens[i] == (if !s.tokens[i].isRevoked && s.tokens[i].expiresAt < now then Revoked(s.tokens[i]) else s.tokens[i])
      {
        ExpiredUnrevokedMatch(s.tokens[i], now);
      }
    }
    r
  }

  /** The corrected cleanup leaves every usable row as it was and makes no row usable. */
  lemma CleanupExpiredOnlyUsableRows(s: Store, now: int)
    ensures var after := CleanupExpiredOnly(s, now).store;
      forall i :: 0 <= i < |s.tokens| ==>
        (Usable(s.tokens[i], now) || Usable(after.tokens[i], now)) ==> after.tokens[i] == s.tokens[i]
  {
  }

  /** Two tables that agree on every row usable in either hold a usable row for
      the same values. */
  lemma SameUsableRows(a: seq<RefreshToken>, b: seq<RefreshToken>, v: string, now: int)
    requires |a| == |b|
    requires forall i :: 0 <= i < |a| ==> (Usable(a[i], now) || Usable(b[i], now)) ==> b[i] == a[i]
    ensures (exists t :: t in a && t.token == v && Usable(t, now)) <==> (exists t :: t in b && t.token == v && Usable(t, now))
  {
    if t :| t in a && t.token == v && Usable(t, now) {
      var i :| 0 <= i < |a| && a[i] == t;
      assert b[i] in b;
    }
    if t :| t in b && t.token == v && Usable(t, now) {
      var i :| 0 <= i < |b| && b[i] == t;
      assert a[i] in a;
    }
  }

  /** Corrected: cleanup never changes whether a refresh at the same instant
      succeeds; it only retires rows a refresh would refuse anyway. */
  lemma CleanupExpiredOnlyKeepsRefreshOutcome(s: Store, v: string, now: int)
    requires Valid(s) && v != []
    ensures Refresh(CleanupExpiredOnly(s, now).store, Some(v), now).result.Success?
        <==> Refresh(s, Some(v), now).result.Success?
  {
    var after := CleanupExpiredOnly(s, now).store;
    RefreshSucceedsIff(s, v, now);
    RefreshSucceedsIff(after, v, now);
    CleanupExpiredOnlyUsableRows(s, now);
    SameUsableRows(s.tokens, after.tokens, v, now);
  }

  /** Corrected: when an unrevoked row has expired, the cleanup returns a positive
      count, and the count it returns is the number of rows it revoked. */
  lemma CleanupExpiredOnlyReturnsCount(s: Store, t: RefreshToken, now: int)
    requires t in s.tokens && !t.isRevoked && t.expiresAt < now
    ensures CleanupExpiredOnly(s, now).rowCount >= 1
    ensures CleanupExpiredOnly(s, now).returned == Some(CleanupExpiredOnly(s, now).rowCount)
  {
    ExpiredUnrevokedMatch(t, now);
    SelectedRowCounts(s.tokens, And(NotRevoked, ExpiresBefore(now)), t);
  }

  /** Corrected: a second cleanup at the same instant flips nothing. */
  lemma CleanupExpiredOnlyTwiceCountsZero(s: Store, now: int)
    ensures var first := CleanupExpiredOnly(s, now);
            var second := CleanupExpiredOnly(first.store, now);
            second.rowCount == 0 && second.returned == Some(0) && second.store == first.store
  {
    var first := CleanupExpiredOnly(s, now);
    var second := CleanupExpiredOnly(first.store, now);
    var w := And(NotRevoked, ExpiresBefore(now));
    forall i | i in PositionsWhere(first.store.tokens, w) ensures false {
      ExpiredUnrevokedMatch(first.store.tokens[i], now);
    }
    assert PositionsWhere(first.store.tokens, w) == {};
    assert second.store.tokens == first.store.tokens;
  }
}
