/**
 * Login failover (`loginToAtlas`): the endpoints are tried in order with a form POST
 * to `<endpoint>/j_spring_security_check`, and the first response object ends the
 * search. The HTTP client and the password decryptor are parameters.
 */
module AtlasLogin {
  import opened Wrappers

  const URL_LOGIN := "/j_spring_security_check"

  datatype Cookie = Cookie(name: string, value: string)

  /** A response object returned by the HTTP client: its status and the cookies it set. */
  datatype ClientResponse = ClientResponse(status: int, cookies: seq<Cookie>)

  /** What one login attempt against one endpoint comes to. */
  datatype LoginAttempt =
    | Responded(response: ClientResponse)  // the POST returned a response object, whatever its status
    | NoResponse                           // the POST threw (caught and logged) or returned null
    | Aborted                              // another step of the attempt threw: it becomes the pending exception

  /** The `HadoopException` thrown when no endpoint responded; its message names `loginUrl` ("null" when absent). */
  datatype LoginError = LoginError(loginUrl: Option<string>)

  /**
   * One login POST: the attempt's position in the endpoint list, the login URL,
   * `j_username` and `j_password`. The position lets a repeated endpoint answer
   * differently on each attempt.
   */
  type PostFn = (nat, string, Option<string>, Option<string>) -> LoginAttempt

  /** `PasswordUtils.decryptPassword`: `None` when it throws or yields null. */
  type DecryptFn = Option<string> -> Option<string>

  /**
   * The password sent with the login form: the decrypted secret, or the configured
   * secret itself when decryption fails. A configured secret is never lost.
   */
  function EffectivePassword(secret: Option<string>, decrypt: DecryptFn): (pw: Option<string>)
    ensures decrypt(secret).Some? ==> pw == decrypt(secret)
    ensures decrypt(secret).None? ==> pw == secret
    ensures secret.Some? ==> pw.Some?
  {
    if decrypt(secret).Some? then decrypt(secret) else secret
  }

  function LoginUrl(url: string): string
  {
    url + URL_LOGIN
  }

  /** Outcome of the POST sent to the `k`-th endpoint. */
  function AttemptAt(urls: seq<string>, k: nat, user: Option<string>, password: Option<string>, post: PostFn): LoginAttempt
    requires k < |urls|
  {
    post(k, LoginUrl(urls[k]), user, password)
  }

  /**
   * The failover loop from the `i`-th endpoint on; `pending` is the URL of the last
   * attempt that aborted and `last` the last login URL tried.
   */
  function LoginFrom(urls: seq<string>, i: nat, user: Option<string>, password: Option<string>, post: PostFn,
                     pending: Option<string>, last: Option<string>): Result<ClientResponse, LoginError>
    requires i <= |urls|
    decreases |urls| - i
  {
    if i == |urls| then Failure(LoginError(if pending.Some? then pending else last))
    else
      match AttemptAt(urls, i, user, password, post)
      case Responded(resp) => Success(resp)
      case NoResponse => LoginFrom(urls, i + 1, user, password, post, pending, Some(LoginUrl(urls[i])))
      case Aborted => LoginFrom(urls, i + 1, user, password, post, Some(LoginUrl(urls[i])), Some(LoginUrl(urls[i])))
  }

  /** What `loginToAtlas` returns or throws for the endpoint list `urls`. */
  function Login(urls: seq<string>, user: Option<string>, secret: Option<string>, decrypt: DecryptFn, post: PostFn): Result<ClientResponse, LoginError>
  {
    LoginFrom(urls, 0, user, EffectivePassword(secret, decrypt), post, None, None)
  }

  /** `k` is the first endpoint, from `i` on, whose POST yields a response object. */
  ghost predicate FirstResponder(urls: seq<string>, i: nat, k: nat, user: Option<string>, password: Option<string>, post: PostFn)
  {
    && i <= k < |urls|
    && AttemptAt(urls, k, user, password, post).Responded?
    && forall j :: i <= j < k ==> !AttemptAt(urls, j, user, password, post).Responded?
  }

  /**
   * Failover from the `i`-th endpoint returns the response of the first responding
   * endpoint, and throws exactly when none responds.
   */
  lemma {:induction false} LoginFromSpec(urls: seq<string>, i: nat, user: Option<string>, password: Option<string>, post: PostFn,
                                         pending: Option<string>, last: Option<string>)
    requires i <= |urls|
    ensures var r := LoginFrom(urls, i, user, password, post, pending, last);
      && (r.Success? ==> exists k :: FirstResponder(urls, i, k, user, password, post)
                                  && r.value == AttemptAt(urls, k, user, password, post).response)
      && (r.Failure? <==> forall k :: i <= k < |urls| ==> !AttemptAt(urls, k, user, password, post).Responded?)
    decreases |urls| - i
  {
    if i < |urls| {
      var a := AttemptAt(urls, i, user, password, post);
      if a.Responded? {
        assert FirstResponder(urls, i, i, user, password, post);
      } else {
        var next := if a.Aborted? then Some(LoginUrl(urls[i])) else pending;
        LoginFromSpec(urls, i + 1, user, password, post, next, Some(LoginUrl(urls[i])));
        var r := LoginFrom(urls, i, user, password, post, pending, last);
        if r.Success? {
          var k :| FirstResponder(urls, i + 1, k, user, password, post)
                   && r.value == AttemptAt(urls, k, user, password, post).response;
          assert FirstResponder(urls, i, k, user, password, post);
        }
      }
    }
  }

  /**
   * `loginToAtlas` returns the response of the first endpoint, in order, whose POST
   * yields a response object (sent with the effective password), and throws exactly
   * when no endpoint does.
   */
  lemma LoginSpec(urls: seq<string>, user: Option<string>, secret: Option<string>, decrypt: DecryptFn, post: PostFn)
    ensures var pw := EffectivePassword(secret, decrypt);
      var r := Login(urls, user, secret, decrypt, post);
      && (r.Success? ==> exists k :: FirstResponder(urls, 0, k, user, pw, post)
                                  && r.value == AttemptAt(urls, k, user, pw, post).response)
      && (r.Failure? <==> forall k :: 0 <= k < |urls| ==> !AttemptAt(urls, k, user, pw, post).Responded?)
  {
    LoginFromSpec(urls, 0, user, EffectivePassword(secret, decrypt), post, None, None);
  }

  /** An empty endpoint list always fails, and the error names no login URL. */
  lemma LoginEmptyFails(user: Option<string>, secret: Option<string>, decrypt: DecryptFn, post: PostFn)
    ensures Login([], user, secret, decrypt, post) == Failure(LoginError(None))
  {
  }

  /**
   * Endpoints after the first responding one are never tried: replacing them
   * changes nothing.
   */
  lemma {:induction false} LoginFromIgnoresLaterEndpoints(urls: seq<string>, more: seq<string>, i: nat, k: nat,
                                                          user: Option<string>, password: Option<string>, post: PostFn,
                                                          pending: Option<string>, last: Option<string>)
    requires FirstResponder(urls, i, k, user, password, post)
    ensures LoginFrom(urls[..k + 1] + more, i, user, password, post, pending, last)
         == LoginFrom(urls, i, user, password, post, pending, last)
    decreases k - i
  {
    var urls' := urls[..k + 1] + more;
    assert urls'[i] == urls[i];
    if i < k {
      assert FirstResponder(urls, i + 1, k, user, password, post);
      var a := AttemptAt(urls, i, user, password, post);
      var next := if a.Aborted? then Some(LoginUrl(urls[i])) else pending;
      LoginFromIgnoresLaterEndpoints(urls, more, i + 1, k, user, password, post, next, Some(LoginUrl(urls[i])));
    }
  }

  /**
   * Failover: when the first endpoint fails (whether it aborted or gave no response)
   * and the second responds, the login returns the second endpoint's response.
   */
  lemma FailoverToSecond(u1: string, u2: string, rest: seq<string>, user: Option<string>, secret: Option<string>,
                         decrypt: DecryptFn, post: PostFn, resp: ClientResponse)
    requires var pw := EffectivePassword(secret, decrypt);
      && !post(0, LoginUrl(u1), user, pw).Responded?
      && post(1, LoginUrl(u2), user, pw) == Responded(resp)
    ensures Login([u1, u2] + rest, user, secret, decrypt, post) == Success(resp)
  {
    var urls := [u1, u2] + rest;
    var pw := EffectivePassword(secret, decrypt);
    assert urls[0] == u1 && urls[1] == u2;
    assert AttemptAt(urls, 1, user, pw, post) == Responded(resp);
    assert LoginFrom(urls, 1, user, pw, post, None, Some(LoginUrl(u1))) == Success(resp);
    assert LoginFrom(urls, 1, user, pw, post, Some(LoginUrl(u1)), Some(LoginUrl(u1))) == Success(resp);
  }

  /**
   * When no endpoint responds, the exception names the login URL of the last
   * attempt that aborted, or of the last attempt when none aborted.
   */
  lemma {:induction false} LoginFromErrorUrl(urls: seq<string>, i: nat, user: Option<string>, password: Option<string>, post: PostFn,
                                             pending: Option<string>, last: Option<string>)
    requires i < |urls|
    ensures var r := LoginFrom(urls, i, user, password, post, pending, last);
      r.Failure? ==>
        && ((exists k :: i <= k < |urls| && AttemptAt(urls, k, user, password, post).Aborted?) ==>
              exists k :: && i <= k < |urls| && AttemptAt(urls, k, user, password, post).Aborted?
                          && (forall j :: k < j < |urls| ==> !AttemptAt(urls, j, user, password, post).Aborted?)
                          && r.error.loginUrl == Some(LoginUrl(urls[k])))
        && ((forall k :: i <= k < |urls| ==> !AttemptAt(urls, k, user, password, post).Aborted?) ==>
              r.error.loginUrl == if pending.Some? then pending else Some(LoginUrl(urls[|urls| - 1])))
    decreases |urls| - i
  {
    var a := AttemptAt(urls, i, user, password, post);
    var r := LoginFrom(urls, i, user, password, post, pending, last);
    if !a.Responded? {
      var next := if a.Aborted? then Some(LoginUrl(urls[i])) else pending;
      if i + 1 < |urls| {
        LoginFromErrorUrl(urls, i + 1, user, password, post, next, Some(LoginUrl(urls[i])));
        if r.Failure? && a.Aborted? && forall k :: i + 1 <= k < |urls| ==> !AttemptAt(urls, k, user, password, post).Aborted? {
          assert r.error.loginUrl == Some(LoginUrl(urls[i]));
        }
      }
    }
  }

  /**
   * The exception thrown after a failed failover over a non-empty list names the
   * login URL of the last aborted attempt when some attempt aborted, and of the
   * last endpoint when none did.
   */
  lemma LoginErrorUrl(urls: seq<string>, user: Option<string>, secret: Option<string>, decrypt: DecryptFn, post: PostFn)
    requires |urls| > 0
    ensures var pw := EffectivePassword(secret, decrypt);
      var r := Login(urls, user, secret, decrypt, post);
      r.Failure? ==>
        && ((exists k :: 0 <= k < |urls| && AttemptAt(urls, k, user, pw, post).Aborted?) ==>
              exists k :: && 0 <= k < |urls| && AttemptAt(urls, k, user, pw, post).Aborted?
                          && (forall j :: k < j < |urls| ==> !AttemptAt(urls, j, user, pw, post).Aborted?)
                          && r.error.loginUrl == Some(LoginUrl(urls[k])))
        && ((forall k :: 0 <= k < |urls| ==> !AttemptAt(urls, k, user, pw, post).Aborted?) ==>
              r.error.loginUrl == Some(LoginUrl(urls[|urls| - 1])))
  {
    var pw := EffectivePassword(secret, decrypt);
    LoginFromErrorUrl(urls, 0, user, pw, post, None, None);
  }
}
