/** The sign-in gate in front of every route (`AuthMiddleware`,
    cmd/space/actions/auth.go): a path that starts with one of the skip
    prefixes passes untouched; otherwise the login kept in the session is
    looked up, and the request is refused when its path starts with "/api"
    and let through otherwise. The session store and the request context
    are reduced to what the decision reads and writes. */
module AuthGate {
  import opened Common
  import opened Text
  import opened AccountModel
  import opened AccountParams
  import opened AccountsService

  /** The session key the signed-in login is kept under. */
  const SessionLoginKey: string := "staff-login"

  /** The prefixes of the paths that need no sign-in. */
  const SkipPaths: seq<string> := [
    "/static", "/sso", "/logout", "/capacity", "/ping", "/forbidden", "/500", "/open",
    "/favicon.ico", "/robots.txt", "/manifest.json"]

  /** What the session holds under the login key: nothing, a string, or a
      value of some other type. */
  datatype SessionValue = Missing | Login(login: string) | NotAString

  /** What the gate does for one request: whether it reads the session,
      the account it puts in the request context, whether it deletes the
      session's account entry, and the error it answers with (`None` to
      let the request through). */
  datatype Decision = Decision(readsSession: bool, account: Option<Account>, clearsAccount: bool, response: Option<Error>)

  /** `lo.ContainsBy(prefixes, func(p) { strings.HasPrefix(path, p) })`. */
  function AnyPrefix(prefixes: seq<string>, path: string): (b: bool)
    ensures b <==> exists i | 0 <= i < |prefixes| :: HasPrefix(path, prefixes[i])
  {
    if prefixes == [] then false
    else
      assert forall i | 1 <= i < |prefixes| :: prefixes[1..][i - 1] == prefixes[i];
      HasPrefix(path, prefixes[0]) || AnyPrefix(prefixes[1..], path)
  }

  /** `AuthMiddleware` for a request to `path` whose session holds `login`,
      with the account lookup `DescribeAccount` on the tables `db`. */
  function Gate(path: string, login: SessionValue, db: Db, digest: string -> string): (d: Decision)
    ensures d.readsSession <==> !AnyPrefix(SkipPaths, path)
    ensures d.clearsAccount ==> d.readsSession && login.Login? && d.account.None?
  {
    if AnyPrefix(SkipPaths, path) then Decision(false, None, false, None)
    else
      var found := if login.Login? then Some(DescribeAccountOf(db, DescribeAccountParams(0, login.login, ""), digest)) else None;
      var account := if found.Some? && found.value.Ok? then Some(found.value.value) else None;
      var clears := found.Some? && found.value.Err?;
      Decision(true, account, clears, if HasPrefix(path, "/api") then Some(Unauthorized) else None)
  }

  /** A skipped path is let through without reading the session. */
  lemma SkippedPassesUntouched(path: string, login: SessionValue, db: Db, digest: string -> string)
    requires AnyPrefix(SkipPaths, path)
    ensures Gate(path, login, db, digest) == Decision(false, None, false, None)
  {
  }

  /** Matching is by raw string prefix, not by path segment: "/pingx" and
      "/static/app.js" are skipped just as "/ping" is. */
  lemma RawPrefixMatch()
    ensures AnyPrefix(SkipPaths, "/pingx")
    ensures AnyPrefix(SkipPaths, "/static/app.js")
  {
    assert HasPrefix("/pingx", SkipPaths[4]);
    assert HasPrefix("/static/app.js", SkipPaths[0]);
  }

  /** No skip prefix is a prefix of a path that starts with "/api": each
      one has a second character other than 'a'. */
  lemma {:induction false} ApiNeverSkipped(path: string)
    requires HasPrefix(path, "/api")
    ensures !AnyPrefix(SkipPaths, path)
  {
    forall i | 0 <= i < |SkipPaths| ensures !HasPrefix(path, SkipPaths[i]) {
      SecondChar(i);
      assert path[1] == "/api"[1] == 'a';
    }
  }

  /** Every skip prefix has at least two characters and its second is not 'a'. */
  lemma SecondChar(i: nat)
    requires i < |SkipPaths|
    ensures |SkipPaths[i]| >= 2 && SkipPaths[i][1] != 'a'
  {
  }

  /** Every request to an "/api" path is refused as unauthorized, whatever
      the session holds and even when an account is found. */
  lemma ApiRejected(path: string, login: SessionValue, db: Db, digest: string -> string)
    requires HasPrefix(path, "/api")
    ensures Gate(path, login, db, digest).response == Some(Unauthorized)
    ensures Gate(path, login, db, digest).readsSession
  {
    ApiNeverSkipped(path);
  }

  /** A request outside "/api" is let through, signed in or not. */
  lemma OthersContinue(path: string, login: SessionValue, db: Db, digest: string -> string)
    requires !HasPrefix(path, "/api")
    ensures Gate(path, login, db, digest).response.None?
  {
  }

  /** The account is put in the context exactly when the path is not
      skipped, the session holds a string login and the lookup by that
      login succeeds; it is then the account that lookup loads. A failed
      lookup deletes the session's account entry instead. */
  lemma AccountSetExactly(path: string, login: SessionValue, db: Db, digest: string -> string)
    ensures var d := Gate(path, login, db, digest);
            && (d.account.Some? <==>
                  !AnyPrefix(SkipPaths, path) && login.Login?
                  && DescribeAccountOf(db, DescribeAccountParams(0, login.login, ""), digest).Ok?)
            && (d.account.Some? ==> d.account.value == DescribeAccountOf(db, DescribeAccountParams(0, login.login, ""), digest).value)
            && (d.clearsAccount <==>
                  !AnyPrefix(SkipPaths, path) && login.Login?
                  && DescribeAccountOf(db, DescribeAccountParams(0, login.login, ""), digest).Err?)
  {
  }

  /** An empty login in the session never signs anyone in: the lookup
      refuses parameters without a selector. */
  lemma EmptyLoginSignsNobodyIn(path: string, db: Db, digest: string -> string)
    requires !AnyPrefix(SkipPaths, path)
    ensures Gate(path, Login(""), db, digest).account.None?
    ensures Gate(path, Login(""), db, digest).clearsAccount
  {
  }

  /** The login of a stored account signs that account in, loaded. */
  lemma StoredLoginSignsIn(path: string, db: Db, i: nat, digest: string -> string)
    requires Valid(db) && i < |db.accounts| && db.accounts[i].login != ""
    requires !AnyPrefix(SkipPaths, path)
    ensures Gate(path, Login(db.accounts[i].login), db, digest).account == Some(AfterFind(db.accounts[i], digest))
  {
    DescribeByLogin(db, i, digest);
  }
}
