/**
 * webapp/app.py: the configuration web application and its OAuth handshake.
 *
 * The state is two files (client_secret.json present or not; token.json
 * absent or holding a credentials JSON) and the session slot `state`. The
 * OAuth client library is two function inputs: `authorize`, from the
 * redirect URI to the consent URL and a state nonce, and `exchange`, from
 * the stored state and the redirect URI to the credentials JSON, or None
 * when the exchange raises.
 */
module WebApp {
  import opened Wrappers

  const SecretKeyVariable: string := "PHOTO_FRAME_SECRET_KEY"
  const DefaultSecretKey: string := "dev-secret-key"

  /** `url_for("index")`. */
  const IndexPath: string := "/"

  /** The status of a missing client_secret.json, and of any exception a handler lets escape. */
  const ServerError: int := 500
  /** The status of a callback without a session state. */
  const BadRequest: int := 400

  /** The OAuth redirect target, built the same way by both routes. */
  function RedirectUri(hostIp: string): string {
    "http://" + hostIp + ":5000/oauth2callback"
  }

  /** `os.environ.get("PHOTO_FRAME_SECRET_KEY", "dev-secret-key")`. */
  function SecretKey(env: map<string, string>): (key: string)
    ensures SecretKeyVariable in env ==> key == env[SecretKeyVariable]
    ensures SecretKeyVariable !in env ==> key == DefaultSecretKey
  {
    if SecretKeyVariable in env then env[SecretKeyVariable] else DefaultSecretKey
  }

  /** Python truthiness of `session.get("state")`. */
  predicate HasState(state: Option<string>) {
    state.Some? && state.value != ""
  }

  /** A route's answer: the status page, a redirect, or an error status. */
  datatype Reply = Page(configured: bool) | Redirect(location: string) | Error(status: int)

  /** The application `create_app(host_ip)` returns, with the files it sees
      and one browser session. */
  class ConfigApp {
    const hostIp: string
    const secretKey: string
    /** client_secret.json exists. */
    var clientSecret: bool
    /** token.json: None when absent, else the credentials JSON it holds. */
    var token: Option<string>
    /** `session["state"]`. */
    var sessionState: Option<string>

    constructor (hostIp: string, env: map<string, string>, clientSecret: bool, token: Option<string>)
      ensures this.hostIp == hostIp && secretKey == SecretKey(env)
      ensures this.clientSecret == clientSecret && this.token == token && sessionState == None
    {
      this.hostIp := hostIp;
      secretKey := SecretKey(env);
      this.clientSecret := clientSecret;
      this.token := token;
      sessionState := None;
    }

    /** `index`: configured exactly when token.json exists. */
    method Index() returns (reply: Reply)
      ensures reply == Page(token.Some?)
    {
      var configured := token.Some?;
      reply := Page(configured);
    }

    /** `google_auth`: a 500 when client_secret.json is missing; otherwise the
        state the flow returns goes into the session and the browser is
        redirected to the consent URL. token.json is never touched. */
    method GoogleAuth(authorize: string -> (string, string)) returns (reply: Reply)
      modifies this`sessionState
      ensures !clientSecret ==> reply == Error(ServerError) && sessionState == old(sessionState)
      ensures clientSecret ==>
        var (url, state) := authorize(RedirectUri(hostIp));
        reply == Redirect(url) && sessionState == Some(state)
    {
      if !clientSecret {
        return Error(ServerError);
      }
      var (url, state) := authorize(RedirectUri(hostIp));
      sessionState := Some(state);
      reply := Redirect(url);
    }

    /** `oauth2callback`: a 400 when the session holds no non-empty state;
        otherwise the flow is rebuilt with that state and the same redirect
        URI, and a successful exchange overwrites token.json and redirects to
        the status page. A missing client_secret.json or a failed exchange
        raises, which the framework answers with a 500. The session state is
        never cleared. */
    method OAuth2Callback(exchange: (string, string) -> Option<string>) returns (reply: Reply)
      modifies this`token
      ensures !HasState(sessionState) ==> reply == Error(BadRequest) && token == old(token)
      ensures HasState(sessionState) && !clientSecret ==> reply == Error(ServerError) && token == old(token)
      ensures HasState(sessionState) && clientSecret ==>
        match exchange(sessionState.value, RedirectUri(hostIp))
        case None => reply == Error(ServerError) && token == old(token)
        case Some(creds) => reply == Redirect(IndexPath) && token == Some(creds)
    {
      var state := sessionState;
      if !HasState(state) {
        return Error(BadRequest);
      }
      if !clientSecret {
        return Error(ServerError);
      }
      var creds := exchange(state.value, RedirectUri(hostIp));
      if creds.None? {
        return Error(ServerError);
      }
      token := creds;
      reply := Redirect(IndexPath);
    }
  }

  /** A callback that arrives before any authorisation attempt in the session
      is rejected with a 400 and leaves the frame unconfigured. */
  method CallbackBeforeAuthorization(hostIp: string, env: map<string, string>, clientSecret: bool,
                                     exchange: (string, string) -> Option<string>)
    returns (reply: Reply, status: Reply)
    ensures reply == Error(BadRequest)
    ensures status == Page(false)
  {
    var app := new ConfigApp(hostIp, env, clientSecret, None);
    reply := app.OAuth2Callback(exchange);
    status := app.Index();
  }

  /** Without client_secret.json the handshake cannot start: the begin route
      answers 500, the callback that follows finds no state and answers 400,
      and the frame stays unconfigured. */
  method MissingClientSecret(hostIp: string, env: map<string, string>,
                             authorize: string -> (string, string),
                             exchange: (string, string) -> Option<string>)
    returns (begin: Reply, callback: Reply, status: Reply)
    ensures begin == Error(ServerError) && callback == Error(BadRequest) && status == Page(false)
  {
    var app := new ConfigApp(hostIp, env, false, None);
    begin := app.GoogleAuth(authorize);
    callback := app.OAuth2Callback(exchange);
    status := app.Index();
  }

  /** The full handshake: beginning redirects to the consent URL, the callback
      exchanges with the state the flow issued and the same redirect URI,
      stores the credentials and redirects home, after which the status page
      reports the frame configured. */
  method Handshake(hostIp: string, env: map<string, string>,
                   authorize: string -> (string, string),
                   exchange: (string, string) -> Option<string>)
    returns (begin: Reply, callback: Reply, status: Reply, stored: Option<string>)
    requires authorize(RedirectUri(hostIp)).1 != ""
    requires exchange(authorize(RedirectUri(hostIp)).1, RedirectUri(hostIp)).Some?
    ensures begin == Redirect(authorize(RedirectUri(hostIp)).0)
    ensures callback == Redirect(IndexPath)
    ensures status == Page(true)
    ensures stored == exchange(authorize(RedirectUri(hostIp)).1, RedirectUri(hostIp))
  {
    var app := new ConfigApp(hostIp, env, true, None);
    begin := app.GoogleAuth(authorize);
    callback := app.OAuth2Callback(exchange);
    status := app.Index();
    stored := app.token;
  }

  /** Because the callback leaves the session state in place, a second
      callback in the same session is never rejected for a missing state,
      whether its exchange succeeds or fails. */
  method SecondCallbackNotRejected(hostIp: string, env: map<string, string>,
                                   authorize: string -> (string, string),
                                   first: (string, string) -> Option<string>,
                                   second: (string, string) -> Option<string>)
    returns (again: Reply)
    requires authorize(RedirectUri(hostIp)).1 != ""
    ensures again != Error(BadRequest)
    ensures again == (if second(authorize(RedirectUri(hostIp)).1, RedirectUri(hostIp)).Some?
                      then Redirect(IndexPath) else Error(ServerError))
  {
    var app := new ConfigApp(hostIp, env, true, None);
    var _ := app.GoogleAuth(authorize);
    var _ := app.OAuth2Callback(first);
    again := app.OAuth2Callback(second);
  }

  /** A second successful callback in the same session exchanges again and
      overwrites token.json with the new credentials. */
  method RepeatedCallback(hostIp: string, env: map<string, string>,
                          authorize: string -> (string, string),
                          first: (string, string) -> Option<string>,
                          second: (string, string) -> Option<string>)
    returns (again: Reply, stored: Option<string>)
    requires authorize(RedirectUri(hostIp)).1 != ""
    requires first(authorize(RedirectUri(hostIp)).1, RedirectUri(hostIp)).Some?
    requires second(authorize(RedirectUri(hostIp)).1, RedirectUri(hostIp)).Some?
    ensures again == Redirect(IndexPath)
    ensures stored == second(authorize(RedirectUri(hostIp)).1, RedirectUri(hostIp))
  {
    var app := new ConfigApp(hostIp, env, true, None);
    var _ := app.GoogleAuth(authorize);
    var _ := app.OAuth2Callback(first);
    again := app.OAuth2Callback(second);
    stored := app.token;
  }
}
