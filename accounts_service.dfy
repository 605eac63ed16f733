/** The accounts service (accounts/service.go) over two in-memory tables,
    `accounts` and `authentications`. An account and its authentication row
    are written in the same transaction, so the two tables grow in step and
    the authentication of the account at position `i` is the row at `i`.
    Password hashing, token signing and parsing, and base64url coding are
    the parameters of a `Crypto` value; the clock and the random token
    nonce are arguments. Each writing operation is a method of
    `AccountStore` proved equal to a step function on the tables, and the
    lemmas state what the step promises. */
module AccountsService {
  import opened Common
  import opened Text
  import opened AccountModel
  import opened AccountParams

  /** A row of the `authentications` table. `unlockToken` is the hash of the
      pending unlock nonce, `None` for SQL NULL. */
  datatype Authentication = Authentication(
    id: int,
    accountId: int,
    encryptedPassword: string,
    currentSignInAt: int,
    currentSignInIP: string,
    lastSignInAt: int,
    lastSignInIP: string,
    failedAttempts: int,
    unlockToken: Option<string>,
    lockedAt: int)

  /** The two tables. */
  datatype Db = Db(accounts: seq<Account>, auths: seq<Authentication>)

  /** Every account has its authentication row at the same position. */
  predicate Paired(db: Db) {
    |db.auths| == |db.accounts|
    && forall i | 0 <= i < |db.accounts| :: db.auths[i].accountId == db.accounts[i].id
  }

  /** What the database guarantees between calls: autoincrement ids, the
      pairing of the two tables (the unique index on `account_id`), and the
      unique indexes on login and e-mail address. */
  ghost predicate Valid(db: Db) {
    && Paired(db)
    && (forall i | 0 <= i < |db.accounts| :: db.accounts[i].id == i + 1)
    && (forall i | 0 <= i < |db.auths| :: db.auths[i].id == i + 1)
    && (forall i, j | 0 <= i < |db.accounts| && 0 <= j < |db.accounts| && i != j ::
          db.accounts[i].login != db.accounts[j].login && db.accounts[i].email != db.accounts[j].email)
  }

  /** The result of a writing operation together with the tables after it. */
  datatype Outcome<T> = Outcome(result: Result<T>, db: Db)

  /** The registered claims of a token: issuer, token id and expiry. */
  datatype Claims = Claims(issuer: string, id: string, expiresAt: int)

  /** The foreign primitives. `hash` is `bcrypt.GenerateFromPassword`,
      `matches(h, pw)` is `bcrypt.CompareHashAndPassword(h, pw) == nil`,
      `sign(c, key)` is HS256 signing to the compact serialization of
      RFC 7515 section 7.1, `parse(t, key, now)` checks the signature and,
      against the clock reading `now`, the expiry, and yields the claims, and `encode`/`decode` are the unpadded base64url
      coding of RFC 4648 section 5. */
  datatype Crypto = Crypto(
    hash: string -> Option<string>,
    matches: (string, string) -> bool,
    sign: (Claims, string) -> Option<string>,
    parse: (string, string, int) -> Option<Claims>,
    encode: string -> string,
    decode: string -> Option<string>)

  /** The key unlock tokens are signed with. */
  const UnlockTokenKey: string := "__unlock_token__"

  /** How long a token stays valid: fifteen minutes, in seconds. */
  const TokenExpires: int := 15 * 60

  /** The base64url form of the JSON header `{"alg":"HS256","typ":"JWT"}`,
      which is what both the signer and `Unlock` produce for an HS256
      token. */
  const HeaderSegment: string := "eyJhbGciOiJIUzI1NiIsInR5cCI6IkpXVCJ9"

  // ------------------------------------------------------------ lookups

  /** Every selector that is set matches: an id above zero, a non-empty
      login, a non-empty e-mail address. */
  predicate Selects(a: Account, id: int, login: string, email: string) {
    (id > 0 ==> a.id == id) && (login != "" ==> a.login == login) && (email != "" ==> a.email == email)
  }

  /** `First(&account)` under the conditions the set selectors add; with no
      selector set there is no condition and the first row is taken. */
  function FindAccount(accounts: seq<Account>, id: int, login: string, email: string): (r: Option<nat>)
    ensures r.Some? ==> r.value < |accounts| && Selects(accounts[r.value], id, login, email)
                        && forall j | 0 <= j < r.value :: !Selects(accounts[j], id, login, email)
    ensures r.None? <==> forall j | 0 <= j < |accounts| :: !Selects(accounts[j], id, login, email)
  {
    FirstWhere(accounts, (a: Account) => Selects(a, id, login, email))
  }

  /** `Where("login = ?", login).First(&account)`: the condition is added
      even for the empty login. */
  function AccountByLogin(accounts: seq<Account>, login: string): (r: Option<nat>)
    ensures r.Some? ==> r.value < |accounts| && accounts[r.value].login == login
    ensures r.None? <==> forall j | 0 <= j < |accounts| :: accounts[j].login != login
  {
    FirstWhere(accounts, (a: Account) => a.login == login)
  }

  /** `Where("email = ?", email).First(&account)`. */
  function AccountByEmail(accounts: seq<Account>, email: string): (r: Option<nat>)
    ensures r.Some? ==> r.value < |accounts| && accounts[r.value].email == email
    ensures r.None? <==> forall j | 0 <= j < |accounts| :: accounts[j].email != email
  {
    FirstWhere(accounts, (a: Account) => a.email == email)
  }

  /** With unique logins, the row found by login is the only one holding it. */
  lemma ByLoginUnique(db: Db, login: string, i: nat)
    requires Valid(db) && i < |db.accounts| && db.accounts[i].login == login
    ensures AccountByLogin(db.accounts, login) == Some(i)
  {
  }

  // ------------------------------------------------------------ CreateAccount

  /** Some existing account already holds the login or the e-mail address. */
  predicate LoginOrEmailTaken(accounts: seq<Account>, login: string, email: string) {
    exists i | 0 <= i < |accounts| :: accounts[i].login == login || accounts[i].email == email
  }

  /** `CreateAccount` as a step on the tables. The parameters are validated
      before anything is written; the account and its authentication row
      are then inserted in one transaction, which a unique-index violation
      or a failure to hash the password (in the row's create hook) aborts as
      a whole. The requested status is not copied. */
  function CreateAccountStep(db: Db, p: CreateAccountParams, isEmail: string -> bool,
                             hash: string -> Option<string>): (o: Outcome<Account>)
    ensures !CreateAccountValid(p, isEmail) ==> o == Outcome(Err(ValidationFailed), db)
    ensures o.result.Err? ==> o.db == db
    ensures o.result.Ok? <==> (CreateAccountValid(p, isEmail) && !LoginOrEmailTaken(db.accounts, p.login, p.email)
                               && hash(p.password).Some?)
    ensures o.result.Err? && CreateAccountValid(p, isEmail) ==>
              o.result.error == (if LoginOrEmailTaken(db.accounts, p.login, p.email) then Conflict else HashFailed)
  {
    if !CreateAccountValid(p, isEmail) then Outcome(Err(ValidationFailed), db)
    else if LoginOrEmailTaken(db.accounts, p.login, p.email) then Outcome(Err(Conflict), db)
    else
      var h := hash(p.password);
      if h.None? then Outcome(Err(HashFailed), db)
      else
        var a := Account(|db.accounts| + 1, p.login, p.email, p.name, p.bio, p.location, "", "");
        var auth := Authentication(|db.auths| + 1, a.id, h.value, 0, "", 0, "", 0, None, 0);
        Outcome(Ok(a), Db(db.accounts + [a], db.auths + [auth]))
  }

  /** What a successful `CreateAccount` writes: one account with the given
      login, address, name, bio and location and an empty status, which is
      not a valid status, and one authentication row for it holding the
      password hash and no sign-in history. */
  lemma CreateAccountWrites(db: Db, p: CreateAccountParams, isEmail: string -> bool, hash: string -> Option<string>)
    requires CreateAccountStep(db, p, isEmail, hash).result.Ok?
    ensures var o := CreateAccountStep(db, p, isEmail, hash);
            var a := o.result.value;
            && a.id == |db.accounts| + 1 && a.login == p.login && a.email == p.email && a.name == p.name
            && a.bio == p.bio && a.location == p.location && a.status == "" && !IsValidStatus(a.status)
            && o.db.accounts == db.accounts + [a]
            && o.db.auths == db.auths + [Authentication(|db.auths| + 1, a.id, hash(p.password).value, 0, "", 0, "", 0, None, 0)]
  {
    UserStatusValues("");
  }

  /** Creating an account keeps the table invariant. */
  lemma CreateAccountKeepsValid(db: Db, p: CreateAccountParams, isEmail: string -> bool, hash: string -> Option<string>)
    requires Valid(db)
    ensures Valid(CreateAccountStep(db, p, isEmail, hash).db)
  {
    var o := CreateAccountStep(db, p, isEmail, hash);
    if o.result.Ok? {
      var a := o.result.value;
      forall i | 0 <= i < |db.accounts| ensures db.accounts[i].login != a.login && db.accounts[i].email != a.email {
        assert !(db.accounts[i].login == p.login || db.accounts[i].email == p.email);
      }
    }
  }

  // ------------------------------------------------------------ DescribeAccount

  /** `DescribeAccount`: checks that a selector is set, then loads the first
      account every set selector matches. */
  function DescribeAccountOf(db: Db, p: DescribeAccountParams, digest: string -> string): (r: Result<Account>)
    ensures r.Err? <==> CheckDescribeAccount(p).Some? || FindAccount(db.accounts, p.id, p.login, p.email).None?
    ensures r.Err? ==> r.error == (if CheckDescribeAccount(p).Some? then DescribeAccountParamsInvalid else NotFound)
    ensures r.Ok? ==> r.value == AfterFind(db.accounts[FindAccount(db.accounts, p.id, p.login, p.email).value], digest)
  {
    if CheckDescribeAccount(p).Some? then Err(DescribeAccountParamsInvalid)
    else
      var at := FindAccount(db.accounts, p.id, p.login, p.email);
      if at.None? then Err(NotFound) else Ok(AfterFind(db.accounts[at.value], digest))
  }

  /** A negative id passes the presence check but adds no condition, so
      with no other selector it loads the first account. */
  lemma NegativeIdTakesFirst(db: Db, id: int, digest: string -> string)
    requires id < 0 && |db.accounts| > 0
    ensures DescribeAccountOf(db, DescribeAccountParams(id, "", ""), digest) == Ok(AfterFind(db.accounts[0], digest))
  {
    assert Selects(db.accounts[0], id, "", "");
  }

  /** Looking an account up by its login finds it, loaded. */
  lemma DescribeByLogin(db: Db, i: nat, digest: string -> string)
    requires Valid(db) && i < |db.accounts| && db.accounts[i].login != ""
    ensures DescribeAccountOf(db, DescribeAccountParams(0, db.accounts[i].login, ""), digest)
            == Ok(AfterFind(db.accounts[i], digest))
  {
    var login := db.accounts[i].login;
    var at := FindAccount(db.accounts, 0, login, "");
    assert Selects(db.accounts[i], 0, login, "");
    assert at.Some? && db.accounts[at.value].login == login;
  }

  // ------------------------------------------------------------ AuthenticateAccount

  /** `params.AuthenticateAccount`. */
  datatype AuthenticateParams = AuthenticateParams(login: string, email: string, password: string, clientIP: string)

  /** The authentication row after a successful sign-in at `now`: the
      failure count is cleared and the current sign-in becomes the last. */
  function SignedIn(auth: Authentication, now: int, clientIP: string): (r: Authentication)
    ensures r.failedAttempts == 0
    ensures r.lastSignInAt == auth.currentSignInAt && r.lastSignInIP == auth.currentSignInIP
    ensures r.currentSignInAt == now && r.currentSignInIP == clientIP
    ensures r.(failedAttempts := auth.failedAttempts, lastSignInAt := auth.lastSignInAt, lastSignInIP := auth.lastSignInIP,
               currentSignInAt := auth.currentSignInAt, currentSignInIP := auth.currentSignInIP) == auth
  {
    auth.(failedAttempts := 0, lastSignInAt := auth.currentSignInAt, lastSignInIP := auth.currentSignInIP,
          currentSignInAt := now, currentSignInIP := clientIP)
  }

  /** `AuthenticateAccount` as a step on the tables. Without a login and an
      address, with no matching account, or with a wrong password it
      answers Unauthorized; a wrong password also counts one more failed
      attempt. Neither the failure count nor the lock time nor the account
      status is consulted. */
  function AuthenticateStep(db: Db, p: AuthenticateParams, crypto: Crypto, digest: string -> string, now: int): (o: Outcome<Account>)
    requires Paired(db)
    ensures o.result.Err? ==> o.result.error == Unauthorized
    ensures o.db.accounts == db.accounts && |o.db.auths| == |db.auths|
    ensures o.result.Ok? <==>
              (p.login != "" || p.email != "")
              && var at := FindAccount(db.accounts, 0, p.login, p.email);
                 at.Some? && crypto.matches(db.auths[at.value].encryptedPassword, p.password)
  {
    if p.login == "" && p.email == "" then Outcome(Err(Unauthorized), db)
    else
      var at := FindAccount(db.accounts, 0, p.login, p.email);
      if at.None? then Outcome(Err(Unauthorized), db)
      else
        var auth := db.auths[at.value];
        if !crypto.matches(auth.encryptedPassword, p.password) then
          Outcome(Err(Unauthorized), db.(auths := db.auths[at.value := auth.(failedAttempts := auth.failedAttempts + 1)]))
        else
          Outcome(Ok(AfterFind(db.accounts[at.value], digest)), db.(auths := db.auths[at.value := SignedIn(auth, now, p.clientIP)]))
  }

  /** The tables after a sign-in attempt on the account at `at`: a wrong
      password adds exactly one failed attempt and touches nothing else; a
      right one replaces that row by its signed-in form and returns the
      loaded account. Without a selector or without a matching account
      nothing changes. */
  lemma AuthenticateWrites(db: Db, p: AuthenticateParams, crypto: Crypto, digest: string -> string, now: int)
    requires Paired(db)
    ensures var o := AuthenticateStep(db, p, crypto, digest, now);
            var at := FindAccount(db.accounts, 0, p.login, p.email);
            && ((p.login == "" && p.email == "") || at.None? ==> o.db == db)
            && ((p.login != "" || p.email != "") && at.Some? ==>
                  var auth := db.auths[at.value];
                  if crypto.matches(auth.encryptedPassword, p.password) then
                    o.result == Ok(AfterFind(db.accounts[at.value], digest))
                    && o.db == db.(auths := db.auths[at.value := SignedIn(auth, now, p.clientIP)])
                  else
                    o.db == db.(auths := db.auths[at.value := auth.(failedAttempts := auth.failedAttempts + 1)]))
  {
  }

  /** A sign-in attempt keeps the table invariant. */
  lemma AuthenticateKeepsValid(db: Db, p: AuthenticateParams, crypto: Crypto, digest: string -> string, now: int)
    requires Valid(db)
    ensures Valid(AuthenticateStep(db, p, crypto, digest, now).db)
  {
    var at := FindAccount(db.accounts, 0, p.login, p.email);
    if (p.login != "" || p.email != "") && at.Some? {
      var auth := db.auths[at.value];
      AuthReplacedKeepsValid(db, at.value, auth.(failedAttempts := auth.failedAttempts + 1));
      AuthReplacedKeepsValid(db, at.value, SignedIn(auth, now, p.clientIP));
    }
  }

  /** Replacing an authentication row by one with the same ids keeps the
      table invariant. */
  lemma AuthReplacedKeepsValid(db: Db, at: nat, auth: Authentication)
    requires Valid(db) && at < |db.auths|
    requires auth.id == db.auths[at].id && auth.accountId == db.auths[at].accountId
    ensures Valid(db.(auths := db.auths[at := auth]))
  {
  }

  /** Right after an account is created, signing in with its login and the
      password it was created with succeeds, provided the hash accepts the
      password it was made from. */
  lemma {:induction false} CreateThenAuthenticate(db: Db, p: CreateAccountParams, isEmail: string -> bool,
                                                  crypto: Crypto, digest: string -> string, ip: string, now: int)
    requires Valid(db)
    requires CreateAccountStep(db, p, isEmail, crypto.hash).result.Ok?
    requires crypto.matches(crypto.hash(p.password).value, p.password)
    ensures var o := CreateAccountStep(db, p, isEmail, crypto.hash);
            AuthenticateStep(o.db, AuthenticateParams(p.login, "", p.password, ip), crypto, digest, now).result
            == Ok(AfterFind(o.result.value, digest))
  {
    var o := CreateAccountStep(db, p, isEmail, crypto.hash);
    CreateAccountWrites(db, p, isEmail, crypto.hash);
    CreateAccountKeepsValid(db, p, isEmail, crypto.hash);
    var n := |db.accounts|;
    forall j | 0 <= j < n ensures !Selects(o.db.accounts[j], 0, p.login, "") {
      assert o.db.accounts[j] == db.accounts[j];
      assert !(db.accounts[j].login == p.login || db.accounts[j].email == p.email);
    }
    assert Selects(o.db.accounts[n], 0, p.login, "");
    var at := FindAccount(o.db.accounts, 0, p.login, "");
    assert at == Some(n);
  }

  // ------------------------------------------------------------ UpdateAccount

  /** `params.UpdateAccount`: the login picks the account; the other fields
      are pointers, `None` for nil. */
  datatype UpdateAccountParams = UpdateAccountParams(
    login: string,
    name: Option<string>,
    bio: Option<string>,
    location: Option<string>)

  /** `UpdateAccount` as a step on the tables: loads the account by login,
      patches the given profile fields and saves the row in place. */
  function UpdateAccountStep(db: Db, p: UpdateAccountParams, digest: string -> string): (o: Outcome<Account>)
    ensures o.result.Err? <==> AccountByLogin(db.accounts, p.login).None?
    ensures o.result.Err? ==> o == Outcome(Err(NotFound), db)
    ensures o.db.auths == db.auths && |o.db.accounts| == |db.accounts|
  {
    var at := AccountByLogin(db.accounts, p.login);
    if at.None? then Outcome(Err(NotFound), db)
    else
      var a := db.accounts[at.value];
      var patched := a.(name := Patch(a.name, p.name), bio := Patch(a.bio, p.bio), location := Patch(a.location, p.location));
      Outcome(Ok(AfterFind(patched, digest)), db.(accounts := db.accounts[at.value := patched]))
  }

  /** A successful update changes exactly the given profile fields of the
      account holding the login, and no other row. */
  lemma UpdateAccountWrites(db: Db, p: UpdateAccountParams, digest: string -> string)
    requires UpdateAccountStep(db, p, digest).result.Ok?
    ensures var o := UpdateAccountStep(db, p, digest);
            var at := AccountByLogin(db.accounts, p.login).value;
            var old_, new_ := db.accounts[at], o.db.accounts[at];
            && o.db.accounts == db.accounts[at := new_]
            && new_.(name := old_.name, bio := old_.bio, location := old_.location) == old_
            && (p.name.None? ==> new_.name == old_.name) && (p.name.Some? ==> new_.name == p.name.value)
            && (p.bio.None? ==> new_.bio == old_.bio) && (p.bio.Some? ==> new_.bio == p.bio.value)
            && (p.location.None? ==> new_.location == old_.location)
            && (p.location.Some? ==> new_.location == p.location.value)
            && o.result.value == AfterFind(new_, digest)
  {
  }

  /** Updating an account keeps the table invariant. */
  lemma UpdateAccountKeepsValid(db: Db, p: UpdateAccountParams, digest: string -> string)
    requires Valid(db)
    ensures Valid(UpdateAccountStep(db, p, digest).db)
  {
    var o := UpdateAccountStep(db, p, digest);
    if o.result.Ok? {
      UpdateAccountWrites(db, p, digest);
    }
  }

  /** An update with no field set saves the row unchanged. */
  lemma EmptyAccountUpdate(db: Db, login: string, digest: string -> string)
    ensures UpdateAccountStep(db, UpdateAccountParams(login, None, None, None), digest).db == db
  {
    var at := AccountByLogin(db.accounts, login);
    if at.Some? {
      assert db.accounts[at.value := db.accounts[at.value]] == db.accounts;
    }
  }

  // ------------------------------------------------------------ UpdatePassword

  /** `params.UpdatePassword`. */
  datatype UpdatePasswordParams = UpdatePasswordParams(id: int, login: string, email: string, password: string, newPassword: string)

  /** `UpdatePassword` as a step on the tables. An empty new password is
      refused before any lookup; the account is the first every set selector
      matches; the current password must match before the new hash is
      stored. */
  function UpdatePasswordStep(db: Db, p: UpdatePasswordParams, crypto: Crypto): (o: Outcome<()>)
    requires Paired(db)
    ensures p.newPassword == "" ==> o == Outcome(Err(NewPasswordInvalid), db)
    ensures o.result.Err? ==> o.db == db
    ensures o.db.accounts == db.accounts && |o.db.auths| == |db.auths|
    ensures o.result.Ok? <==>
              p.newPassword != ""
              && var at := FindAccount(db.accounts, p.id, p.login, p.email);
                 at.Some? && crypto.matches(db.auths[at.value].encryptedPassword, p.password)
                 && crypto.hash(p.newPassword).Some?
    ensures o.result.Err? && p.newPassword != "" ==>
              var at := FindAccount(db.accounts, p.id, p.login, p.email);
              o.result.error == (if at.None? then NotFound
                                 else if !crypto.matches(db.auths[at.value].encryptedPassword, p.password) then Unauthorized
                                 else HashFailed)
  {
    if p.newPassword == "" then Outcome(Err(NewPasswordInvalid), db)
    else
      var at := FindAccount(db.accounts, p.id, p.login, p.email);
      if at.None? then Outcome(Err(NotFound), db)
      else
        var auth := db.auths[at.value];
        if !crypto.matches(auth.encryptedPassword, p.password) then Outcome(Err(Unauthorized), db)
        else
          var h := crypto.hash(p.newPassword);
          if h.None? then Outcome(Err(HashFailed), db)
          else Outcome(Ok(()), db.(auths := db.auths[at.value := auth.(encryptedPassword := h.value)]))
  }

  /** A successful change replaces the stored hash of the selected account
      by the hash of the new password and changes nothing else. With no
      selector set, the selected account is the first one. */
  lemma UpdatePasswordWrites(db: Db, p: UpdatePasswordParams, crypto: Crypto)
    requires Paired(db)
    requires UpdatePasswordStep(db, p, crypto).result.Ok?
    ensures var at := FindAccount(db.accounts, p.id, p.login, p.email).value;
            && (p.id <= 0 && p.login == "" && p.email == "" ==> at == 0)
            && UpdatePasswordStep(db, p, crypto).db
               == db.(auths := db.auths[at := db.auths[at].(encryptedPassword := crypto.hash(p.newPassword).value)])
  {
    if p.id <= 0 && p.login == "" && p.email == "" {
      assert Selects(db.accounts[0], p.id, p.login, p.email);
    }
  }

  /** Changing a password keeps the table invariant. */
  lemma UpdatePasswordKeepsValid(db: Db, p: UpdatePasswordParams, crypto: Crypto)
    requires Valid(db)
    ensures Valid(UpdatePasswordStep(db, p, crypto).db)
  {
    var o := UpdatePasswordStep(db, p, crypto);
    if o.result.Ok? {
      var at := FindAccount(db.accounts, p.id, p.login, p.email).value;
      AuthReplacedKeepsValid(db, at, db.auths[at].(encryptedPassword := crypto.hash(p.newPassword).value));
    }
  }

  // ------------------------------------------------------------ unlock tokens

  /** What `CreateUnlockToken` hands out for a signed token: every segment
      but the first, joined again by dots. */
  function Strip(signed: string): (r: string)
    ensures '.' in signed ==> r == signed[FirstIndex(signed, '.') + 1..]
    ensures '.' !in signed ==> r == ""
  {
    DropFirstPiece(signed, '.');
    Join(Split(signed, '.')[1..], '.')
  }

  /** What `Unlock` parses for a handed-out token: the fixed header segment,
      a dot, and the token. */
  function Restore(token: string): (r: string)
    ensures HasPrefix(r, HeaderSegment + ".") && |r| == |HeaderSegment| + 1 + |token|
    ensures r[|HeaderSegment| + 1..] == token
  {
    HeaderSegment + "." + token
  }

  /** Stripping a restored token gives the token back, and restoring a
      stripped signed string whose header segment is the fixed one gives
      the signed string back. */
  lemma StripRestore(token: string, signed: string)
    ensures Strip(Restore(token)) == token
    ensures HasPrefix(signed, HeaderSegment + ".") ==> Restore(Strip(signed)) == signed
  {
    assert '.' !in HeaderSegment;
    HeaderFirst(Restore(token));
    DropFirstPiece(Restore(token), '.');
    assert Restore(token)[|HeaderSegment| + 1..] == token;
    if HasPrefix(signed, HeaderSegment + ".") {
      HeaderFirst(signed);
      DropFirstPiece(signed, '.');
      assert signed == HeaderSegment + "." + signed[|HeaderSegment| + 1..];
    }
  }

  /** In a string that starts with the header segment and a dot, that dot
      is the first one. */
  lemma HeaderFirst(s: string)
    requires HasPrefix(s, HeaderSegment + ".")
    ensures '.' in s && FirstIndex(s, '.') == |HeaderSegment|
  {
    var n := |HeaderSegment|;
    assert s[..n] == HeaderSegment;
    assert s[n] == '.';
    NoDotInHeader();
    assert forall k | 0 <= k < n :: s[k] == s[..n][k] != '.';
  }

  /** The header segment holds no dot. */
  lemma NoDotInHeader()
    ensures forall k | 0 <= k < |HeaderSegment| :: HeaderSegment[k] != '.'
  {
  }

  /** `CreateUnlockToken` as a step on the tables: loads the account by
      address, signs claims naming the address as issuer, the nonce as id
      and an expiry fifteen minutes after `now`, stores the hash of the
      nonce as the pending unlock token and hands out the encoded token
      without its header segment. */
  function CreateUnlockTokenStep(db: Db, email: string, crypto: Crypto, nonce: string, now: int): (o: Outcome<string>)
    requires Paired(db)
    ensures o.result.Err? ==> o.db == db
    ensures o.db.accounts == db.accounts && |o.db.auths| == |db.auths|
    ensures o.result.Ok? <==>
              AccountByEmail(db.accounts, email).Some?
              && crypto.sign(Claims(email, nonce, now + TokenExpires), UnlockTokenKey).Some?
              && crypto.hash(nonce).Some?
    ensures o.result.Err? ==>
              o.result.error == (if AccountByEmail(db.accounts, email).None? then NotFound
                                 else if crypto.sign(Claims(email, nonce, now + TokenExpires), UnlockTokenKey).None? then SignFailed
                                 else HashFailed)
  {
    var at := AccountByEmail(db.accounts, email);
    if at.None? then Outcome(Err(NotFound), db)
    else
      var signed := crypto.sign(Claims(email, nonce, now + TokenExpires), UnlockTokenKey);
      if signed.None? then Outcome(Err(SignFailed), db)
      else
        var h := crypto.hash(nonce);
        if h.None? then Outcome(Err(HashFailed), db)
        else
          var auth := db.auths[at.value];
          Outcome(Ok(crypto.encode(Strip(signed.value))), db.(auths := db.auths[at.value := auth.(unlockToken := Some(h.value))]))
  }

  /** `params.Unlock`. The login is carried but never read. */
  datatype UnlockParams = UnlockParams(login: string, token: string)

  /** `Unlock` as a step on the tables: decodes the token, puts the header
      segment back, checks it, loads the account named by the issuer and
      checks the id against the pending unlock token; then clears the
      failure count, the pending token and the lock time. */
  function UnlockStep(db: Db, p: UnlockParams, crypto: Crypto, now: int): (o: Outcome<()>)
    requires Paired(db)
    ensures o.result.Err? ==> o.db == db
    ensures o.db.accounts == db.accounts && |o.db.auths| == |db.auths|
    ensures o.result.Ok? <==>
              && crypto.decode(p.token).Some?
              && var c := crypto.parse(Restore(crypto.decode(p.token).value), UnlockTokenKey, now);
                 && c.Some?
                 && var at := AccountByEmail(db.accounts, c.value.issuer);
                    && at.Some?
                    && db.auths[at.value].unlockToken.Some?
                    && crypto.matches(db.auths[at.value].unlockToken.value, c.value.id)
  {
    var t := crypto.decode(p.token);
    if t.None? then Outcome(Err(DecodeFailed), db)
    else
      var c := crypto.parse(Restore(t.value), UnlockTokenKey, now);
      if c.None? then Outcome(Err(TokenInvalid), db)
      else
        var at := AccountByEmail(db.accounts, c.value.issuer);
        if at.None? then Outcome(Err(NotFound), db)
        else
          var auth := db.auths[at.value];
          if auth.unlockToken.None? || !crypto.matches(auth.unlockToken.value, c.value.id) then Outcome(Err(Unauthorized), db)
          else Outcome(Ok(()), db.(auths := db.auths[at.value := auth.(failedAttempts := 0, unlockToken := None, lockedAt := 0)]))
  }

  /** A successful unlock sets the failure count and the lock time to zero
      and the pending token to NULL on the account's row, and nothing
      else. The login of the parameters plays no part. */
  lemma UnlockWrites(db: Db, p: UnlockParams, crypto: Crypto, now: int, otherLogin: string)
    requires Paired(db)
    requires UnlockStep(db, p, crypto, now).result.Ok?
    ensures var c := crypto.parse(Restore(crypto.decode(p.token).value), UnlockTokenKey, now).value;
            var at := AccountByEmail(db.accounts, c.issuer).value;
            UnlockStep(db, p, crypto, now).db
            == db.(auths := db.auths[at := db.auths[at].(failedAttempts := 0, unlockToken := None, lockedAt := 0)])
    ensures UnlockStep(db, p.(login := otherLogin), crypto, now) == UnlockStep(db, p, crypto, now)
  {
  }

  /** A token unlocks at most once: after a successful unlock the same
      token is refused as Unauthorized and changes nothing. */
  lemma UnlockOnce(db: Db, p: UnlockParams, crypto: Crypto, now: int)
    requires Paired(db)
    requires UnlockStep(db, p, crypto, now).result.Ok?
    ensures var db' := UnlockStep(db, p, crypto, now).db;
            UnlockStep(db', p, crypto, now) == Outcome(Err(Unauthorized), db')
  {
    UnlockWrites(db, p, crypto, now, p.login);
  }

  /** Issuing and redeeming tokens keeps the table invariant. */
  lemma TokensKeepValid(db: Db, email: string, p: UnlockParams, crypto: Crypto, nonce: string, now: int)
    requires Valid(db)
    ensures Valid(CreateUnlockTokenStep(db, email, crypto, nonce, now).db)
    ensures Valid(UnlockStep(db, p, crypto, now).db)
  {
    var at := AccountByEmail(db.accounts, email);
    var h := crypto.hash(nonce);
    if at.Some? && h.Some? {
      AuthReplacedKeepsValid(db, at.value, db.auths[at.value].(unlockToken := Some(h.value)));
    }
    var o := UnlockStep(db, p, crypto, now);
    if o.result.Ok? {
      UnlockWrites(db, p, crypto, now, p.login);
      var c := crypto.parse(Restore(crypto.decode(p.token).value), UnlockTokenKey, now).value;
      var i := AccountByEmail(db.accounts, c.issuer).value;
      AuthReplacedKeepsValid(db, i, db.auths[i].(failedAttempts := 0, unlockToken := None, lockedAt := 0));
    }
  }

  /** The primitives behave as the token scheme needs: decoding undoes
      encoding; parsing a signed token with its key gives back its claims
      while the clock reads before their expiry and fails from then on;
      no parse ever yields expired claims; a signed token starts with the
      fixed header segment; and a hash accepts what it was made from. */
  ghost predicate SoundCrypto(crypto: Crypto) {
    && (forall s :: crypto.decode(crypto.encode(s)) == Some(s))
    && (forall c, key, now | crypto.sign(c, key).Some? ::
          crypto.parse(crypto.sign(c, key).value, key, now) == if now < c.expiresAt then Some(c) else None)
    && (forall t, key, now | crypto.parse(t, key, now).Some? :: now < crypto.parse(t, key, now).value.expiresAt)
    && (forall c, key | crypto.sign(c, key).Some? :: HasPrefix(crypto.sign(c, key).value, HeaderSegment + "."))
    && (forall s | crypto.hash(s).Some? :: crypto.matches(crypto.hash(s).value, s))
  }

  /** The token `CreateUnlockToken` hands out at `now`, redeemed at `later`
      while it is unexpired (`later` before `now` plus fifteen minutes),
      unlocks the account it was issued for: redeeming it succeeds and
      clears that account's failure count, pending token and lock time. */
  lemma {:induction false} CreateThenUnlock(db: Db, email: string, login: string, crypto: Crypto, nonce: string,
                                            now: int, later: int)
    requires Paired(db) && SoundCrypto(crypto)
    requires CreateUnlockTokenStep(db, email, crypto, nonce, now).result.Ok?
    requires later < now + TokenExpires
    ensures var o := CreateUnlockTokenStep(db, email, crypto, nonce, now);
            var at := AccountByEmail(db.accounts, email).value;
            var u := UnlockStep(o.db, UnlockParams(login, o.result.value), crypto, later);
            && u.result.Ok?
            && u.db.auths[at] == db.auths[at].(failedAttempts := 0, unlockToken := None, lockedAt := 0)
  {
    var o := CreateUnlockTokenStep(db, email, crypto, nonce, now);
    var at := AccountByEmail(db.accounts, email).value;
    var claims := Claims(email, nonce, now + TokenExpires);
    var signed := IssuedToken(db, email, crypto, nonce, now);
    var h := crypto.hash(nonce).value;
    assert o.db.auths[at] == db.auths[at].(unlockToken := Some(h));
    assert crypto.parse(signed, UnlockTokenKey, later) == Some(claims);
    assert crypto.matches(h, nonce);
    var p := UnlockParams(login, o.result.value);
    UnlockWrites(o.db, p, crypto, later, login);
  }

  /** The same token redeemed at `later` once fifteen minutes have passed
      since it was issued is refused as an invalid token and changes
      nothing. */
  lemma {:induction false} ExpiredTokenRefused(db: Db, email: string, login: string, crypto: Crypto, nonce: string,
                                               now: int, later: int)
    requires Paired(db) && SoundCrypto(crypto)
    requires CreateUnlockTokenStep(db, email, crypto, nonce, now).result.Ok?
    requires later >= now + TokenExpires
    ensures var o := CreateUnlockTokenStep(db, email, crypto, nonce, now);
            UnlockStep(o.db, UnlockParams(login, o.result.value), crypto, later) == Outcome(Err(TokenInvalid), o.db)
  {
    var signed := IssuedToken(db, email, crypto, nonce, now);
    assert crypto.parse(signed, UnlockTokenKey, later) == None;
  }

  /** The handed-out token decodes, with the header segment put back, to
      the string signed for the claims of the issue. */
  lemma IssuedToken(db: Db, email: string, crypto: Crypto, nonce: string, now: int) returns (signed: string)
    requires Paired(db) && SoundCrypto(crypto)
    requires CreateUnlockTokenStep(db, email, crypto, nonce, now).result.Ok?
    ensures crypto.sign(Claims(email, nonce, now + TokenExpires), UnlockTokenKey) == Some(signed)
    ensures var token := CreateUnlockTokenStep(db, email, crypto, nonce, now).result.value;
            crypto.decode(token).Some? && Restore(crypto.decode(token).value) == signed
  {
    signed := crypto.sign(Claims(email, nonce, now + TokenExpires), UnlockTokenKey).value;
    var token := CreateUnlockTokenStep(db, email, crypto, nonce, now).result.value;
    assert token == crypto.encode(Strip(signed));
    assert crypto.decode(token) == Some(Strip(signed));
    assert HasPrefix(signed, HeaderSegment + ".");
    StripRestore(Strip(signed), signed);
  }

  // ------------------------------------------------------------ the store

  /** The accounts service: the two tables and the foreign primitives it
      calls. */
  class AccountStore {
    const crypto: Crypto
    const digest: string -> string
    const isEmail: string -> bool
    var accounts: seq<Account>
    var auths: seq<Authentication>

    /** A service over empty tables. */
    constructor (crypto: Crypto, digest: string -> string, isEmail: string -> bool)
      ensures this.crypto == crypto && this.digest == digest && this.isEmail == isEmail
      ensures State() == Db([], [])
    {
      this.crypto, this.digest, this.isEmail := crypto, digest, isEmail;
      accounts, auths := [], [];
    }

    /** The current tables. */
    function State(): Db
      reads this
    {
      Db(accounts, auths)
    }

    /** `CreateAccount`: validates, then inserts the account and its
      authentication row together. */
    method CreateAccount(p: CreateAccountParams) returns (r: Result<Account>)
      requires Valid(State())
      modifies this
      ensures Valid(State())
      ensures Outcome(r, State()) == CreateAccountStep(old(State()), p, isEmail, crypto.hash)
    {
      CreateAccountKeepsValid(State(), p, isEmail, crypto.hash);
      if !CreateAccountValid(p, isEmail) {
        return Err(ValidationFailed);
      }
      if LoginOrEmailTaken(accounts, p.login, p.email) {
        return Err(Conflict);
      }
      var h := crypto.hash(p.password);
      if h.None? {
        return Err(HashFailed);
      }
      var a := Account(|accounts| + 1, p.login, p.email, p.name, p.bio, p.location, "", "");
      accounts := accounts + [a];
      auths := auths + [Authentication(|auths| + 1, a.id, h.value, 0, "", 0, "", 0, None, 0)];
      r := Ok(a);
    }

    /** `DescribeAccount`. */
    method DescribeAccount(p: DescribeAccountParams) returns (r: Result<Account>)
      ensures r == DescribeAccountOf(State(), p, digest)
    {
      if CheckDescribeAccount(p).Some? {
        return Err(DescribeAccountParamsInvalid);
      }
      var at := FindAccount(accounts, p.id, p.login, p.email);
      if at.None? {
        return Err(NotFound);
      }
      r := Ok(AfterFind(accounts[at.value], digest));
    }

    /** `AuthenticateAccount`: counts a failed attempt or records the
      sign-in on the account's authentication row. */
    method AuthenticateAccount(p: AuthenticateParams, now: int) returns (r: Result<Account>)
      requires Valid(State())
      modifies this
      ensures Valid(State())
      ensures Outcome(r, State()) == AuthenticateStep(old(State()), p, crypto, digest, now)
    {
      AuthenticateKeepsValid(State(), p, crypto, digest, now);
      if |p.login| == 0 && |p.email| == 0 {
        return Err(Unauthorized);
      }
      var at := FindAccount(accounts, 0, p.login, p.email);
      if at.None? {
        return Err(Unauthorized);
      }
      var auth := auths[at.value];
      if !crypto.matches(auth.encryptedPassword, p.password) {
        auth := auth.(failedAttempts := auth.failedAttempts + 1);
        auths := auths[at.value := auth];
        return Err(Unauthorized);
      }
      auth := auth.(failedAttempts := 0);
      auth := auth.(lastSignInAt := auth.currentSignInAt, lastSignInIP := auth.currentSignInIP);
      auth := auth.(currentSignInAt := now, currentSignInIP := p.clientIP);
      auths := auths[at.value := auth];
      r := Ok(AfterFind(accounts[at.value], digest));
    }

    /** `UpdateAccount`: patches the profile fields and saves the row. */
    method UpdateAccount(p: UpdateAccountParams) returns (r: Result<Account>)
      requires Valid(State())
      modifies this
      ensures Valid(State())
      ensures Outcome(r, State()) == UpdateAccountStep(old(State()), p, digest)
    {
      UpdateAccountKeepsValid(State(), p, digest);
      var at := AccountByLogin(accounts, p.login);
      if at.None? {
        return Err(NotFound);
      }
      var a := accounts[at.value];
      if p.name.Some? {
        a := a.(name := p.name.value);
      }
      if p.bio.Some? {
        a := a.(bio := p.bio.value);
      }
      if p.location.Some? {
        a := a.(location := p.location.value);
      }
      accounts := accounts[at.value := a];
      r := Ok(AfterFind(a, digest));
    }

    /** `UpdatePassword`: checks the current password, then stores the
      hash of the new one. */
    method UpdatePassword(p: UpdatePasswordParams) returns (r: Result<()>)
      requires Valid(State())
      modifies this
      ensures Valid(State())
      ensures Outcome(r, State()) == UpdatePasswordStep(old(State()), p, crypto)
    {
      UpdatePasswordKeepsValid(State(), p, crypto);
      if |p.newPassword| == 0 {
        return Err(NewPasswordInvalid);
      }
      var at := FindAccount(accounts, p.id, p.login, p.email);
      if at.None? {
        return Err(NotFound);
      }
      var auth := auths[at.value];
      if !crypto.matches(auth.encryptedPassword, p.password) {
        return Err(Unauthorized);
      }
      var h := crypto.hash(p.newPassword);
      if h.None? {
        return Err(HashFailed);
      }
      auths := auths[at.value := auth.(encryptedPassword := h.value)];
      r := Ok(());
    }

    /** `CreateUnlockToken`, with the clock reading and the random nonce as
      arguments. */
    method CreateUnlockToken(email: string, nonce: string, now: int) returns (r: Result<string>)
      requires Valid(State())
      modifies this
      ensures Valid(State())
      ensures Outcome(r, State()) == CreateUnlockTokenStep(old(State()), email, crypto, nonce, now)
    {
      TokensKeepValid(State(), email, UnlockParams("", ""), crypto, nonce, now);
      var at := AccountByEmail(accounts, email);
      if at.None? {
        return Err(NotFound);
      }
      var signed := crypto.sign(Claims(email, nonce, now + TokenExpires), UnlockTokenKey);
      if signed.None? {
        return Err(SignFailed);
      }
      var h := crypto.hash(nonce);
      if h.None? {
        return Err(HashFailed);
      }
      auths := auths[at.value := auths[at.value].(unlockToken := Some(h.value))];
      var segs := Split(signed.value, '.');
      var token := Join(segs[1..], '.');
      r := Ok(crypto.encode(token));
    }

    /** `Unlock`, with the clock reading the token parser checks the
        expiry against: redeems a token handed out by `CreateUnlockToken`. */
    method Unlock(p: UnlockParams, now: int) returns (r: Result<()>)
      requires Valid(State())
      modifies this
      ensures Valid(State())
      ensures Outcome(r, State()) == UnlockStep(old(State()), p, crypto, now)
    {
      TokensKeepValid(State(), "", p, crypto, "", now);
      var t := crypto.decode(p.token);
      if t.None? {
        return Err(DecodeFailed);
      }
      var tokenString := HeaderSegment + "." + t.value;
      var c := crypto.parse(tokenString, UnlockTokenKey, now);
      if c.None? {
        return Err(TokenInvalid);
      }
      var at := AccountByEmail(accounts, c.value.issuer);
      if at.None? {
        return Err(NotFound);
      }
      var auth := auths[at.value];
      if auth.unlockToken.None? || !crypto.matches(auth.unlockToken.value, c.value.id) {
        return Err(Unauthorized);
      }
      auths := auths[at.value := auth.(failedAttempts := 0, unlockToken := None, lockedAt := 0)];
      r := Ok(());
    }
  }
}
