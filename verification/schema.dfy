/** The two tables (`users`, `refresh_tokens`), their constraints as a store
    invariant, and the handful of SQL statements the service issues against them,
    with the database's own enforcement of the constraints. */
module Schema {
  import opened Wrappers

  /** A `uuid` column value, kept opaque. */
  type Uuid = string

  const EmailMaxLength: nat := 255
  const PasswordHashMaxLength: nat := 255
  const NameMaxLength: nat := 100
  const TokenMaxLength: nat := 255

  /** A row of `users`; timestamps are milliseconds. */
  datatype User = User(
    id: Uuid,
    email: string,
    passwordHash: string,
    firstName: Option<string>,
    lastName: Option<string>,
    createdAt: int,
    updatedAt: int)

  /** A row of `refresh_tokens`. */
  datatype RefreshToken = RefreshToken(
    id: Uuid,
    userId: Uuid,
    token: string,
    expiresAt: int,
    isRevoked: bool,
    createdAt: int)

  /** Both tables, rows in insertion order. */
  datatype Store = Store(users: seq<User>, tokens: seq<RefreshToken>)

  function OptionalLength(v: Option<string>): nat {
    if v.Some? then |v.value| else 0
  }

  /** The `varchar` widths of `users`. */
  predicate UserFits(u: User) {
    && |u.email| <= EmailMaxLength
    && |u.passwordHash| <= PasswordHashMaxLength
    && OptionalLength(u.firstName) <= NameMaxLength
    && OptionalLength(u.lastName) <= NameMaxLength
  }

  /** The `varchar` width of `refresh_tokens.token`. */
  predicate TokenFits(t: RefreshToken) {
    |t.token| <= TokenMaxLength
  }

  function UserIds(users: seq<User>): set<Uuid> {
    set u | u in users :: u.id
  }

  function Emails(users: seq<User>): set<string> {
    set u | u in users :: u.email
  }

  function TokenIds(tokens: seq<RefreshToken>): set<Uuid> {
    set t | t in tokens :: t.id
  }

  function TokenValues(tokens: seq<RefreshToken>): set<string> {
    set t | t in tokens :: t.token
  }

  predicate UniqueUserIds(users: seq<User>) {
    forall i, j :: 0 <= i < j < |users| ==> users[i].id != users[j].id
  }

  predicate UniqueEmails(users: seq<User>) {
    forall i, j :: 0 <= i < j < |users| ==> users[i].email != users[j].email
  }

  predicate UniqueTokenIds(tokens: seq<RefreshToken>) {
    forall i, j :: 0 <= i < j < |tokens| ==> tokens[i].id != tokens[j].id
  }

  predicate UniqueTokenValues(tokens: seq<RefreshToken>) {
    forall i, j :: 0 <= i < j < |tokens| ==> tokens[i].token != tokens[j].token
  }

  /** Every `refresh_tokens.user_id` references an existing `users.id`. */
  predicate OwnersExist(s: Store) {
    forall t :: t in s.tokens ==> t.userId in UserIds(s.users)
  }

  /** Every constraint of both tables: primary keys, `UNIQUE` email and token,
      `varchar` widths and the foreign key. */
  predicate Valid(s: Store) {
    && UniqueUserIds(s.users)
    && UniqueEmails(s.users)
    && (forall u :: u in s.users ==> UserFits(u))
    && UniqueTokenIds(s.tokens)
    && UniqueTokenValues(s.tokens)
    && (forall t :: t in s.tokens ==> TokenFits(t))
    && OwnersExist(s)
  }

  lemma AppendUserUnique(users: seq<User>, u: User)
    requires u.id !in UserIds(users) && u.email !in Emails(users)
    ensures UniqueUserIds(users) ==> UniqueUserIds(users + [u])
    ensures UniqueEmails(users) ==> UniqueEmails(users + [u])
  {
    var r := users + [u];
    forall i | 0 <= i < |users| ensures r[i].id != u.id && r[i].email != u.email {
      assert users[i] in users;
    }
  }

  lemma AppendTokenUnique(tokens: seq<RefreshToken>, t: RefreshToken)
    requires t.id !in TokenIds(tokens) && t.token !in TokenValues(tokens)
    ensures UniqueTokenIds(tokens) ==> UniqueTokenIds(tokens + [t])
    ensures UniqueTokenValues(tokens) ==> UniqueTokenValues(tokens + [t])
  {
    var r := tokens + [t];
    forall i | 0 <= i < |tokens| ensures r[i].id != t.id && r[i].token != t.token {
      assert tokens[i] in tokens;
    }
  }

  /** `INSERT INTO users`: the database rejects a row that breaks a key,
      uniqueness or width constraint, and otherwise appends it. */
  function InsertUser(s: Store, u: User): (r: Option<Store>)
    ensures r.Some? <==> u.id !in UserIds(s.users) && u.email !in Emails(s.users) && UserFits(u)
    ensures r.Some? ==> r.value == Store(s.users + [u], s.tokens)
    ensures r.Some? && Valid(s) ==> Valid(r.value)
  {
    if u.id in UserIds(s.users) || u.email in Emails(s.users) || !UserFits(u) then None
    else
      var s' := Store(s.users + [u], s.tokens);
      assert Valid(s) ==> Valid(s') by {
        if Valid(s) {
          AppendUserUnique(s.users, u);
          assert UserIds(s.users) <= UserIds(s'.users);
        }
      }
      Some(s')
  }

  /** `INSERT INTO refresh_tokens`: rejected when the id or token is taken, the
      token is too wide, or the owner does not exist; otherwise appended. */
  function InsertToken(s: Store, t: RefreshToken): (r: Option<Store>)
    ensures r.Some? <==> t.id !in TokenIds(s.tokens) && t.token !in TokenValues(s.tokens)
                         && TokenFits(t) && t.userId in UserIds(s.users)
    ensures r.Some? ==> r.value == Store(s.users, s.tokens + [t])
    ensures r.Some? && Valid(s) ==> Valid(r.value)
  {
    if t.id in TokenIds(s.tokens) || t.token in TokenValues(s.tokens) || !TokenFits(t) || t.userId !in UserIds(s.users) then None
    else
      var s' := Store(s.users, s.tokens + [t]);
      assert Valid(s) ==> Valid(s') by {
        if Valid(s) {
          AppendTokenUnique(s.tokens, t);
        }
      }
      Some(s')
  }

  /** The `WHERE` conditions the service builds with drizzle's `eq` and `and`. */
  datatype Where =
    | TokenIs(value: string)
    | IdIs(id: Uuid)
    | NotRevoked
    | ExpiresBefore(instant: int)
    | And(left: Where, right: Where)

  predicate Matches(w: Where, t: RefreshToken) {
    match w
    case TokenIs(v) => t.token == v
    case IdIs(id) => t.id == id
    case NotRevoked => !t.isRevoked
    case ExpiresBefore(instant) => t.expiresAt < instant
    case And(l, r) => Matches(l, t) && Matches(r, t)
  }

  /** `findFirst` on `refresh_tokens`: the earliest row the condition selects. */
  function FindToken(tokens: seq<RefreshToken>, w: Where): (r: Option<RefreshToken>)
    ensures r.Some? ==> r.value in tokens && Matches(w, r.value)
    ensures r.None? <==> forall t :: t in tokens ==> !Matches(w, t)
    ensures r.Some? ==> exists k :: 0 <= k < |tokens| && tokens[k] == r.value
                                    && forall j :: 0 <= j < k ==> !Matches(w, tokens[j])
  {
    if tokens == [] then None
    else if Matches(w, tokens[0]) then Some(tokens[0])
    else
      var r := FindToken(tokens[1..], w);
      assert forall t :: t in tokens ==> t == tokens[0] || t in tokens[1..];
      if r.Some? then
        assert exists k :: 0 <= k < |tokens| && tokens[k] == r.value
                           && forall j :: 0 <= j < k ==> !Matches(w, tokens[j]) by {
          var k :| 0 <= k < |tokens[1..]| && tokens[1..][k] == r.value
                   && forall j :: 0 <= j < k ==> !Matches(w, tokens[1..][j]);
          assert tokens[k + 1] == r.value;
          assert forall j :: 0 <= j < k + 1 ==> !Matches(w, tokens[j]) by {
            forall j | 0 <= j < k + 1 ensures !Matches(w, tokens[j]) {
              if j > 0 {
                assert tokens[j] == tokens[1..][j - 1];
              }
            }
          }
        }
        r
      else r
  }

  /** `findFirst` on `users` by email: the earliest row with exactly that email. */
  function FindUserByEmail(users: seq<User>, email: string): (r: Option<User>)
    ensures r.Some? ==> r.value in users && r.value.email == email
    ensures r.None? <==> email !in Emails(users)
  {
    if users == [] then None
    else if users[0].email == email then Some(users[0])
    else
      var r := FindUserByEmail(users[1..], email);
      assert forall u :: u in users ==> u == users[0] || u in users[1..];
      assert Emails(users) == {users[0].email} + Emails(users[1..]);
      r
  }

  /** The user a refresh token row's `user` relation resolves to. */
  function FindUserById(users: seq<User>, id: Uuid): (r: Option<User>)
    ensures r.Some? ==> r.value in users && r.value.id == id
    ensures r.None? <==> id !in UserIds(users)
  {
    if users == [] then None
    else if users[0].id == id then Some(users[0])
    else
      var r := FindUserById(users[1..], id);
      assert forall u :: u in users ==> u == users[0] || u in users[1..];
      assert UserIds(users) == {users[0].id} + UserIds(users[1..]);
      r
  }

  function Revoked(t: RefreshToken): RefreshToken {
    t.(isRevoked := true)
  }

  /** `UPDATE refresh_tokens SET is_revoked = true WHERE w`: every selected row
      becomes revoked, every other row is untouched, and no key changes. */
  function RevokeWhere(tokens: seq<RefreshToken>, w: Where): (r: seq<RefreshToken>)
    ensures |r| == |tokens|
    ensures forall i :: 0 <= i < |tokens| && Matches(w, tokens[i]) ==> r[i] == Revoked(tokens[i])
    ensures forall i :: 0 <= i < |tokens| && !Matches(w, tokens[i]) ==> r[i] == tokens[i]
  {
    if tokens == [] then []
    else
      var head := if Matches(w, tokens[0]) then Revoked(tokens[0]) else tokens[0];
      var rest := RevokeWhere(tokens[1..], w);
      assert forall i :: 1 <= i < |tokens| ==> ([head] + rest)[i] == rest[i - 1];
      [head] + rest
  }

  /** The row count the `UPDATE` reports: the rows its condition selects. */
  function CountWhere(tokens: seq<RefreshToken>, w: Where): (n: nat)
    ensures n <= |tokens|
    ensures n == 0 <==> forall t :: t in tokens ==> !Matches(w, t)
  {
    if tokens == [] then 0
    else
      assert forall t :: t in tokens <==> t == tokens[0] || t in tokens[1..];
      (if Matches(w, tokens[0]) then 1 else 0) + CountWhere(tokens[1..], w)
  }

  /** Revocation rewrites only the flag, so the store invariant survives it. */
  lemma RevokePreservesValid(s: Store, w: Where)
    ensures Valid(s) ==> Valid(Store(s.users, RevokeWhere(s.tokens, w)))
  {
    var r := RevokeWhere(s.tokens, w);
    assert forall i :: 0 <= i < |r| ==> r[i].id == s.tokens[i].id && r[i].token == s.tokens[i].token
                                        && r[i].userId == s.tokens[i].userId;
    forall t | t in r && Valid(s) ensures t.userId in UserIds(s.users) && TokenFits(t) {
      var i :| 0 <= i < |r| && r[i] == t;
      assert s.tokens[i] in s.tokens;
    }
  }

  /** Revoking twice with the same condition is revoking once. */
  lemma {:induction false} RevokeIdempotent(tokens: seq<RefreshToken>, w: Where)
    requires forall t :: t in tokens ==> (Matches(w, t) <==> Matches(w, Revoked(t)))
    ensures RevokeWhere(RevokeWhere(tokens, w), w) == RevokeWhere(tokens, w)
  {
    var once := RevokeWhere(tokens, w);
    var twice := RevokeWhere(once, w);
    forall i | 0 <= i < |tokens| ensures twice[i] == once[i] {
      assert tokens[i] in tokens;
    }
  }

  function UsersWithoutId(users: seq<User>, id: Uuid): (r: seq<User>)
    ensures forall u :: u in r <==> u in users && u.id != id
  {
    if users == [] then []
    else
      var rest := UsersWithoutId(users[1..], id);
      assert forall u :: u in users ==> u == users[0] || u in users[1..];
      if users[0].id == id then rest else [users[0]] + rest
  }

  function TokensNotOwnedBy(tokens: seq<RefreshToken>, id: Uuid): (r: seq<RefreshToken>)
    ensures forall t :: t in r <==> t in tokens && t.userId != id
  {
    if tokens == [] then []
    else
      var rest := TokensNotOwnedBy(tokens[1..], id);
      assert forall t :: t in tokens ==> t == tokens[0] || t in tokens[1..];
      if tokens[0].userId == id then rest else [tokens[0]] + rest
  }

  /** A row whose key differs from every key of a unique table keeps it unique
      when put in front. */
  lemma PrependUserUnique(u: User, rest: seq<User>)
    ensures UniqueUserIds(rest) && (forall v :: v in rest ==> v.id != u.id) ==> UniqueUserIds([u] + rest)
    ensures UniqueEmails(rest) && (forall v :: v in rest ==> v.email != u.email) ==> UniqueEmails([u] + rest)
  {
    var r := [u] + rest;
    forall j | 1 <= j < |r| ensures r[j] == rest[j - 1] && r[j] in rest {
    }
  }

  lemma PrependTokenUnique(t: RefreshToken, rest: seq<RefreshToken>)
    ensures UniqueTokenIds(rest) && (forall v :: v in rest ==> v.id != t.id) ==> UniqueTokenIds([t] + rest)
    ensures UniqueTokenValues(rest) && (forall v :: v in rest ==> v.token != t.token) ==> UniqueTokenValues([t] + rest)
  {
    var r := [t] + rest;
    forall j | 1 <= j < |r| ensures r[j] == rest[j - 1] && r[j] in rest {
    }
  }

  /** In a unique table the first row's keys occur nowhere in the rest. */
  lemma HeadUserKeys(users: seq<User>)
    requires users != []
    ensures UniqueUserIds(users) ==> UniqueUserIds(users[1..]) && forall v :: v in users[1..] ==> v.id != users[0].id
    ensures UniqueEmails(users) ==> UniqueEmails(users[1..]) && forall v :: v in users[1..] ==> v.email != users[0].email
  {
    forall v | v in users[1..] ensures exists j :: 1 <= j < |users| && users[j] == v {
      var j :| 0 <= j < |users[1..]| && users[1..][j] == v;
      assert users[j + 1] == v;
    }
  }

  lemma HeadTokenKeys(tokens: seq<RefreshToken>)
    requires tokens != []
    ensures UniqueTokenIds(tokens) ==> UniqueTokenIds(tokens[1..]) && forall v :: v in tokens[1..] ==> v.id != tokens[0].id
    ensures UniqueTokenValues(tokens) ==> UniqueTokenValues(tokens[1..]) && forall v :: v in tokens[1..] ==> v.token != tokens[0].token
  {
    forall v | v in tokens[1..] ensures exists j :: 1 <= j < |tokens| && tokens[j] == v {
      var j :| 0 <= j < |tokens[1..]| && tokens[1..][j] == v;
      assert tokens[j + 1] == v;
    }
  }

  lemma {:induction false} UsersWithoutIdUnique(users: seq<User>, id: Uuid)
    ensures UniqueUserIds(users) ==> UniqueUserIds(UsersWithoutId(users, id))
    ensures UniqueEmails(users) ==> UniqueEmails(UsersWithoutId(users, id))
  {
    if users != [] {
      UsersWithoutIdUnique(users[1..], id);
      HeadUserKeys(users);
      if users[0].id != id {
        PrependUserUnique(users[0], UsersWithoutId(users[1..], id));
      }
    }
  }

  lemma {:induction false} TokensNotOwnedByUnique(tokens: seq<RefreshToken>, id: Uuid)
    ensures UniqueTokenIds(tokens) ==> UniqueTokenIds(TokensNotOwnedBy(tokens, id))
    ensures UniqueTokenValues(tokens) ==> UniqueTokenValues(TokensNotOwnedBy(tokens, id))
  {
    if tokens != [] {
      TokensNotOwnedByUnique(tokens[1..], id);
      HeadTokenKeys(tokens);
      if tokens[0].userId != id {
        PrependTokenUnique(tokens[0], TokensNotOwnedBy(tokens[1..], id));
      }
    }
  }

  /** `DELETE FROM users WHERE id = ...` with `ON DELETE CASCADE`: the user and
      exactly its refresh tokens disappear, every other row stays, and the store
      invariant survives. */
  function DeleteUser(s: Store, id: Uuid): (r: Store)
    ensures forall u :: u in r.users <==> u in s.users && u.id != id
    ensures forall t :: t in r.tokens <==> t in s.tokens && t.userId != id
    ensures Valid(s) ==> Valid(r)
  {
    var users := UsersWithoutId(s.users, id);
    var tokens := TokensNotOwnedBy(s.tokens, id);
    var r := Store(users, tokens);
    assert Valid(s) ==> Valid(r) by {
      if Valid(s) {
        UsersWithoutIdUnique(s.users, id);
        TokensNotOwnedByUnique(s.tokens, id);
        forall t | t in r.tokens ensures t.userId in UserIds(r.users) {
          var u :| u in s.users && u.id == t.userId;
          assert u in r.users;
        }
      }
    }
    r
  }
}
