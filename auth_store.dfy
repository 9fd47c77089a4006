/** The frontend's authorization store: the OAuth `state` kept in session
    storage between sending the user to GitHub and GitHub's redirect back,
    and the session token kept in local storage.

    The call to the backend's login endpoint is the function `api` (its
    answer for a given code); the random state generator is the parameter
    `freshState`; the build-time GitHub settings are a `GitHubAuthConfig`. */
module AuthStore {
  import opened Common
  import opened FormUrlEncoding

  /** The user the backend returns. */
  datatype UserView = UserView(id: string, name: string)

  /** The backend's answer to a login: a session token and its user. */
  datatype AuthorizedUser = AuthorizedUser(token: string, user: UserView)

  /** How an asynchronous call ends: it returns a value or throws an error. */
  datatype Attempt<T> = Returned(value: T) | Threw(message: string)

  /** The build-time settings of the GitHub authorization request. */
  datatype GitHubAuthConfig = GitHubAuthConfig(baseUrl: string, clientId: string, scope: string, redirectUri: string)

  /** How a template literal prints a string that may be null. */
  function ShowNullable(s: Option<string>): (p: string)
    ensures s.Some? ==> p == s.value
    ensures s.None? ==> p == "null"
  {
    if s.None? then "null" else s.value
  }

  const PassedPrefix: string := "Invalid oauth state (passed: "
  const ExpectedPrefix: string := ", expected: "

  /** The error thrown when the returned state is not the stored one: it
      quotes the passed state and then the expected one, a missing expected
      state printed as `null`. */
  function InvalidStateMessage(passed: string, expected: Option<string>): (m: string)
    ensures var e := ShowNullable(expected);
            var a := |PassedPrefix| + |passed|;
            var b := a + |ExpectedPrefix|;
            && |m| == b + |e| + 1
            && m[..|PassedPrefix|] == PassedPrefix
            && m[|PassedPrefix|..a] == passed
            && m[a..b] == ExpectedPrefix
            && m[b..b + |e|] == e
            && m[|m| - 1] == ')'
  {
    PassedPrefix + passed + ExpectedPrefix + ShowNullable(expected) + ")"
  }

  /** The query parameters of the authorization request, in order. */
  function AuthParams(config: GitHubAuthConfig, state: string): seq<(string, string)> {
    [("client_id", config.clientId), ("scope", config.scope), ("redirect_uri", config.redirectUri), ("state", state)]
  }

  /** The authorization URL for `state`. */
  function AuthUrl(config: GitHubAuthConfig, state: string): string {
    config.baseUrl + "?" + Serialize(AuthParams(config, state))
  }

  /** The query of a URL: what follows its first `?`. */
  function QueryOf(url: string): (q: Option<string>)
    ensures q.Some? ==> |q.value| < |url|
  {
    if url == [] then None
    else if url[0] == '?' then Some(url[1..])
    else QueryOf(url[1..])
  }

  /** The query of `base + "?" + q` is `q` when `base` has no `?`. */
  lemma {:induction false} QueryOfAppend(base: string, q: string)
    requires '?' !in base
    ensures QueryOf(base + "?" + q) == Some(q)
  {
    if base == [] {
      assert base + "?" + q == ['?'] + q;
    } else {
      assert base[0] in base;
      assert (base + "?" + q)[1..] == base[1..] + "?" + q;
      assert '?' !in base[1..] by {
        forall k | 0 <= k < |base[1..]| ensures base[1..][k] != '?' {
          assert base[1..][k] == base[k + 1];
        }
      }
      QueryOfAppend(base[1..], q);
    }
  }

  /** The authorization URL carries exactly the client id, the scope, the
      redirect URI and the state, in that order, each recovered unchanged by
      a parser of its query. */
  lemma AuthUrlCarriesParams(config: GitHubAuthConfig, state: string)
    requires '?' !in config.baseUrl
    ensures QueryOf(AuthUrl(config, state)).Some?
    ensures Parse(QueryOf(AuthUrl(config, state)).value) == Some(AuthParams(config, state))
  {
    QueryOfAppend(config.baseUrl, Serialize(AuthParams(config, state)));
    ParseSerialize(AuthParams(config, state));
  }

  /** The value of the first pair named `name`. */
  function Lookup(pairs: seq<(string, string)>, name: string): (v: Option<string>)
    ensures v.Some? ==> exists i :: 0 <= i < |pairs| && pairs[i] == (name, v.value)
  {
    if pairs == [] then None
    else if pairs[0].0 == name then Some(pairs[0].1)
    else Lookup(pairs[1..], name)
  }

  lemma LookupStateParam(config: GitHubAuthConfig, state: string)
    ensures Lookup(AuthParams(config, state), "state") == Some(state)
  {
    var ps := AuthParams(config, state);
    assert ps[0].0 != "state" && ps[1].0 != "state" && ps[2].0 != "state";
    assert Lookup(ps, "state") == Lookup(ps[1..], "state");
    assert Lookup(ps[1..], "state") == Lookup(ps[2..], "state") by { assert ps[1..][1..] == ps[2..]; }
    assert Lookup(ps[2..], "state") == Lookup(ps[3..], "state") by { assert ps[2..][1..] == ps[3..]; }
    assert ps[3..] == [("state", state)];
  }

  /** The state GitHub echoes back is the `state` parameter of the URL. */
  lemma AuthUrlState(config: GitHubAuthConfig, state: string)
    requires '?' !in config.baseUrl
    ensures QueryOf(AuthUrl(config, state)).Some?
    ensures Parse(QueryOf(AuthUrl(config, state)).value).Some?
    ensures Lookup(Parse(QueryOf(AuthUrl(config, state)).value).value, "state") == Some(state)
  {
    AuthUrlCarriesParams(config, state);
    LookupStateParam(config, state);
  }

  class AuthState {
    /** The state of the authorization request in progress, if any. */
    var oauthState: Option<string>
    /** The session token, if logged in. */
    var token: Option<string>

    /** The store as restored from browser storage. */
    constructor (storedState: Option<string>, storedToken: Option<string>)
      ensures oauthState == storedState && token == storedToken
    {
      oauthState := storedState;
      token := storedToken;
    }

    /** `isAuthorized`: a token is stored. */
    function IsAuthorized(): (b: bool)
      reads this
      ensures b <==> token.Some?
    {
      token.Some?
    }

    /** `deauthorize`: forgets both the state and the token. */
    method Deauthorize()
      modifies this
      ensures oauthState.None? && token.None?
      ensures !IsAuthorized()
    {
      oauthState := None;
      token := None;
    }

    /** `authorizeWithGitHubAuthCode`: accepts GitHub's redirect only when the
        returned state is the stored one. A wrong or unexpected state throws
        before the backend is called, so the outcome does not depend on `api`
        at all. A login the backend rejects throws its error and changes
        nothing. A successful login clears the state, which makes the same
        redirect unusable twice, and stores the token. */
    method AuthorizeWithGitHubAuthCode(code: string, state: string, api: string -> Attempt<AuthorizedUser>)
      returns (r: Attempt<UserView>)
      modifies this
      ensures old(oauthState) != Some(state) ==>
        r == Threw(InvalidStateMessage(state, old(oauthState))) && unchanged(this)
      ensures old(oauthState) == Some(state) && api(code).Threw? ==>
        r == Threw(api(code).message) && unchanged(this)
      ensures old(oauthState) == Some(state) && api(code).Returned? ==>
        && r == Returned(api(code).value.user)
        && oauthState.None?
        && token == Some(api(code).value.token)
      ensures r.Returned? ==> IsAuthorized() && oauthState.None?
    {
      if oauthState.None? || state != oauthState.value {
        return Threw(InvalidStateMessage(state, oauthState));
      }
      var authorizedUser := api(code);
      if authorizedUser.Threw? {
        return Threw(authorizedUser.message);
      }
      oauthState := None;
      token := Some(authorizedUser.value.token);
      r := Returned(authorizedUser.value.user);
    }

    /** `generateAuthUrl`: keeps a stored state, or stores `freshState` when
        there is none, and returns the authorization URL for that state. */
    method GenerateAuthUrl(config: GitHubAuthConfig, freshState: string) returns (url: string)
      modifies this
      ensures oauthState == (if old(oauthState).Some? then old(oauthState) else Some(freshState))
      ensures token == old(token)
      ensures url == AuthUrl(config, oauthState.value)
    {
      if oauthState.None? {
        oauthState := Some(freshState);
      }
      url := AuthUrl(config, oauthState.value);
    }
  }

  /** Two authorization URLs generated before a login completes are equal:
      the second one reuses the state of the first. */
  method RepeatedAuthUrlsShareState(store: AuthState, config: GitHubAuthConfig, fresh1: string, fresh2: string)
    returns (url1: string, url2: string)
    modifies store
    ensures url1 == url2
    ensures store.oauthState.Some? && url1 == AuthUrl(config, store.oauthState.value)
  {
    url1 := store.GenerateAuthUrl(config, fresh1);
    url2 := store.GenerateAuthUrl(config, fresh2);
  }

  /** The round trip through GitHub: a redirect carrying any state other than
      the one in the generated URL is refused, and the state read back from
      that URL is accepted, so the outcome is the backend's. */
  method LoginRoundTrip(store: AuthState, config: GitHubAuthConfig, newState: string, code: string,
                        forged: string, api: string -> Attempt<AuthorizedUser>)
    returns (refused: Attempt<UserView>, accepted: Attempt<UserView>)
    requires '?' !in config.baseUrl
    requires forged != (if store.oauthState.Some? then store.oauthState.value else newState)
    modifies store
    ensures refused.Threw?
    ensures api(code).Returned? ==> accepted == Returned(api(code).value.user) && store.IsAuthorized()
    ensures api(code).Threw? ==> accepted == Threw(api(code).message)
  {
    var url := store.GenerateAuthUrl(config, newState);
    AuthUrlState(config, store.oauthState.value);
    var echoed := Lookup(Parse(QueryOf(url).value).value, "state").value;
    refused := store.AuthorizeWithGitHubAuthCode(code, forged, api);
    accepted := store.AuthorizeWithGitHubAuthCode(code, echoed, api);
  }
}
