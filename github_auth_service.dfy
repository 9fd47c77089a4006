/** Login with a GitHub OAuth code: check the exchanged token, resolve the
    GitHub login to a user (creating the user and its connection on first
    login), and issue a session token for that user.

    The code exchange and the profile fetch are calls to GitHub; their
    outcomes are parameters here. Token issuance is the function `issue`. */
module GitHubAuthService {
  import opened Common
  import opened Models
  import opened Dto
  import opened Configurations
  import opened DataBase

  const CodeIncorrectMessage: string := "Code is incorrect."
  const ExchangeFailedMessage: string := "The OAuth code could not be exchanged."
  const ProfileFetchFailedMessage: string := "The GitHub profile could not be fetched."

  /** How a call to GitHub ends: with an answer, or by throwing. */
  datatype GitHubCall<T> = Answered(answer: T) | Threw

  /** What the code exchange returns; the access token may be missing. */
  datatype OauthToken = OauthToken(accessToken: Option<string>)

  /** The GitHub profile of the token's owner; GitHub users need not set a name. */
  datatype GitHubUser = GitHubUser(login: string, name: Option<string>)

  /** The view of user row `id`. */
  function ToUserDTO(id: Guid, u: User): UserDTO {
    UserDTO(id, u.name, u.avatarUrl)
  }

  /** An exchange that answered with a result carrying an access token. */
  predicate TokenPresent(exchange: GitHubCall<Option<OauthToken>>) {
    exchange.Answered? && exchange.answer.Some? && exchange.answer.value.accessToken.Some?
  }

  /** `LoginUserWithOauthCode`. `exchange` is how trading the code ended
      (an answer of None when GitHub returned nothing), `profile` how fetching
      the current GitHub user ended, `newUserId` the id the database would
      give a new user. A call that throws fails the login with an unhandled
      error before anything is stored. */
  method LoginUserWithOauthCode(
    db: DataBaseContext,
    exchange: GitHubCall<Option<OauthToken>>,
    profile: GitHubCall<GitHubUser>,
    newUserId: Guid,
    issue: Guid -> string)
    returns (r: Result<AuthorizedUserDTO>)
    requires newUserId !in db.users
    requires SchemaValid(db.Snapshot())
    modifies db
    ensures SchemaValid(db.Snapshot())
    ensures db.categories == old(db.categories) && db.items == old(db.items)
    ensures r.Err? ==> db.Snapshot() == old(db.Snapshot())
    ensures exchange.Threw? ==> r == Err(Unhandled(ExchangeFailedMessage))
    ensures exchange.Answered? && !TokenPresent(exchange) ==> r == Err(InvalidInput(CodeIncorrectMessage))
    ensures TokenPresent(exchange) && profile.Threw? ==> r == Err(Unhandled(ProfileFetchFailedMessage))
    // a known login reuses its user and inserts nothing
    ensures TokenPresent(exchange) && profile.Answered? && profile.answer.login in old(db.connections) ==>
      && db.Snapshot() == old(db.Snapshot())
      && var userId := old(db.connections[profile.answer.login]);
         r == Ok(AuthorizedUserDTO(issue(userId), ToUserDTO(userId, old(db.users[userId]))))
    // a new login inserts one user and one connection, unless the user row is refused
    ensures TokenPresent(exchange) && profile.Answered? && profile.answer.login !in old(db.connections) ==>
      var name := profile.answer.name;
      if name.Some? && |name.value| <= MaxNameLength then
        && db.users == old(db.users)[newUserId := User(name.value, None)]
        && db.connections == old(db.connections)[profile.answer.login := newUserId]
        && r == Ok(AuthorizedUserDTO(issue(newUserId), UserDTO(newUserId, name.value, None)))
      else
        r == Err(Unhandled(DbUpdateFailedMessage))
    ensures r.Ok? ==>
      && profile.Answered? && profile.answer.login in db.connections
      && db.connections[profile.answer.login] == r.value.user.id
      && r.value.token == issue(r.value.user.id)
      && r.value.user.id in db.users
      && r.value.user == ToUserDTO(r.value.user.id, db.users[r.value.user.id])
  {
    if exchange.Threw? {
      return Err(Unhandled(ExchangeFailedMessage));
    }
    if !TokenPresent(exchange) {
      return Err(InvalidInput(CodeIncorrectMessage));
    }
    if profile.Threw? {
      return Err(Unhandled(ProfileFetchFailedMessage));
    }
    var githubUser := profile.answer;
    var t := db.Snapshot();
    var connection: Option<Guid> := if githubUser.login in t.connections then Some(t.connections[githubUser.login]) else None;
    if connection.None? {
      // `User.Name` is required: a GitHub user without a name cannot be stored
      if githubUser.name.None? {
        return Err(Unhandled(DbUpdateFailedMessage));
      }
      var user := User(githubUser.name.value, None);
      PutUserSchema(t, newUserId, user);
      var saved := db.SaveChanges(t.(users := t.users[newUserId := user]));
      if !saved {
        return Err(Unhandled(DbUpdateFailedMessage));
      }
      var t' := db.Snapshot();
      PutConnectionSchema(t', githubUser.login, newUserId);
      var _ := db.SaveChanges(t'.(connections := t'.connections[githubUser.login := newUserId]));
      connection := Some(newUserId);
    }
    var userId := connection.value;
    var user := db.users[userId];
    r := Ok(AuthorizedUserDTO(issue(userId), ToUserDTO(userId, user)));
  }

  /** Logging in twice with the same GitHub login yields the same user, and
      the second login inserts nothing. Each login issues its own token
      (`issue1`, `issue2`: a token depends on when it is issued), so only the
      user the second token is issued for is the same. */
  method LoginTwiceIsIdempotent(
    db: DataBaseContext,
    exchange: GitHubCall<Option<OauthToken>>,
    githubUser: GitHubUser,
    newUserId: Guid,
    otherUserId: Guid,
    issue1: Guid -> string,
    issue2: Guid -> string)
    returns (first: Result<AuthorizedUserDTO>, second: Result<AuthorizedUserDTO>)
    requires newUserId !in db.users && otherUserId !in db.users && otherUserId != newUserId
    requires SchemaValid(db.Snapshot())
    modifies db
    ensures first.Ok? ==> second.Ok? && second.value.user == first.value.user
    ensures first.Ok? ==> second.value.token == issue2(first.value.user.id)
    ensures first.Ok? ==> otherUserId !in db.users
  {
    first := LoginUserWithOauthCode(db, exchange, Answered(githubUser), newUserId, issue1);
    second := LoginUserWithOauthCode(db, exchange, Answered(githubUser), otherUserId, issue2);
  }
}
