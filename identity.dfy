/** Who is calling: the lookup of a user by name, the resolution of a bearer token to a
    stored user, and the login that issues tokens. Password hashing (bcrypt) is a pair of
    uninterpreted functions: `hash` and `verify` are parameters. */
module Identity {
  import opened Models
  import opened Security
  import Tables

  datatype TokenResponse = TokenResponse(access_token: Jwt, token_type: string)

  /** The key of the first user, in scan order, with the given name; names are not unique. */
  function FirstUserKey(users: map<int, User>, name: string): (r: Option<int>)
    ensures r.None? <==> forall k :: k in users ==> users[k].name != name
    ensures r.Some? ==> r.value in users && users[r.value].name == name
    ensures r.Some? ==> forall k :: k in users && users[k].name == name ==> r.value <= k
  {
    var named := set k | k in users && users[k].name == name;
    if named == {} then
      assert forall k :: k in users ==> users[k].name != name by {
        forall k | k in users ensures users[k].name != name { assert k !in named; }
      }
      None
    else
      var first := Tables.Least(named);
      assert forall k :: k in users && users[k].name == name ==> first <= k by {
        forall k | k in users && users[k].name == name ensures first <= k { assert k in named; }
      }
      Some(first)
  }

  /** The `sub` claim of a token that decodes at time `now`. */
  function Subject(token: Jwt, now: int): (r: Option<string>)
    ensures r.Some? <==> Decode(token, now).Some? && "sub" in Decode(token, now).value
    ensures r.Some? ==> Decode(token, now).value["sub"] == Text(r.value)
  {
    match Decode(token, now)
    case None => None
    case Some(claims) => if "sub" in claims then Some(claims["sub"].text) else None
  }

  /** The dependency every protected handler runs first. A token that does not decode,
      a token without a subject and a subject no user has all give the same error;
      otherwise the first user of that name is the caller. */
  function CurrentUser(users: map<int, User>, token: Jwt, now: int): (r: Result<User>)
    ensures r.Err? ==> r.error == CredentialsError
    ensures r.Ok? <==> Subject(token, now).Some? && exists k :: k in users && users[k].name == Subject(token, now).value
    ensures r.Ok? ==> r.value == users[FirstUserKey(users, Subject(token, now).value).value]
  {
    match Subject(token, now)
    case None => Err(CredentialsError)
    case Some(name) =>
      match FirstUserKey(users, name)
      case None => Err(CredentialsError)
      case Some(k) => Ok(users[k])
  }

  /** The login handler: the first user with the given name must exist and the password
      must verify against its stored hash; then a bearer token for that user's name is
      issued at `now`. Both failures give the same error. */
  function Login(users: map<int, User>, verify: (string, string) -> bool,
                 username: string, password: string, now: int): (r: Result<TokenResponse>)
    ensures r.Err? ==> r.error == LoginError
    ensures r.Ok? <==> FirstUserKey(users, username).Some?
                       && verify(password, users[FirstUserKey(users, username).value].password)
    ensures r.Ok? ==> r.value.token_type == "bearer"
    ensures r.Ok? ==> r.value.access_token
                      == CreateAccessToken(map["sub" := Text(username)], now)
  {
    match FirstUserKey(users, username)
    case None => Err(LoginError)
    case Some(k) =>
      if !verify(password, users[k].password) then Err(LoginError)
      else Ok(TokenResponse(CreateAccessToken(map["sub" := Text(users[k].name)], now), "bearer"))
  }

  /** A token from a successful login resolves, with the same store, to the user who
      logged in (the first one of that name) until it expires, and to the credentials
      error once it has. */
  lemma {:induction false} LoginThenResolve(users: map<int, User>, verify: (string, string) -> bool,
                                            username: string, password: string, issued: int, at: int)
    requires Login(users, verify, username, password, issued).Ok?
    ensures var token := Login(users, verify, username, password, issued).value.access_token;
            CurrentUser(users, token, at)
            == if at <= issued + AccessTokenLifetime
               then Ok(users[FirstUserKey(users, username).value])
               else Err(CredentialsError)
  {
    var token := Login(users, verify, username, password, issued).value.access_token;
    var data: Claims := map["sub" := Text(username)];
    TokenRoundTrip(data, issued, at);
    if at <= issued + AccessTokenLifetime {
      assert Subject(token, at) == Some(username);
    } else {
      assert Subject(token, at).None?;
    }
  }

  /** With a hasher whose `verify` accepts what `hash` produced, the first user of a name
      logs in with the password that was hashed into its record. */
  lemma StoredHashAdmitsLogin(users: map<int, User>, hash: string -> string, verify: (string, string) -> bool,
                              k: int, password: string, now: int)
    requires forall p :: verify(p, hash(p))
    requires k in users && users[k].password == hash(password)
    requires forall j :: j in users && users[j].name == users[k].name ==> k <= j
    ensures Login(users, verify, users[k].name, password, now).Ok?
  {
    assert FirstUserKey(users, users[k].name) == Some(k);
  }

  /** Names are not unique and only the first user of a name is ever tried: a later
      namesake cannot log in, even with its own password. */
  lemma LaterNamesakeCannotLogIn(users: map<int, User>, verify: (string, string) -> bool,
                                 first: int, later: int, password: string, now: int)
    requires first in users && later in users && first < later
    requires users[first].name == users[later].name
    requires forall j :: j in users && users[j].name == users[first].name ==> first <= j
    requires verify(password, users[later].password) && !verify(password, users[first].password)
    ensures Login(users, verify, users[later].name, password, now) == Err(LoginError)
  {
    assert FirstUserKey(users, users[later].name) == Some(first);
  }

  /** A token stays decodable after its user is deleted, but once no user of its subject's
      name is left it resolves to the credentials error. */
  lemma DeletedSubjectIsRejected(users: map<int, User>, k: int, token: Jwt, now: int)
    requires k in users && Subject(token, now) == Some(users[k].name)
    requires forall j :: j in users && j != k ==> users[j].name != users[k].name
    ensures CurrentUser(users, token, now).Ok?
    ensures CurrentUser(users - {k}, token, now) == Err(CredentialsError)
  {
  }
}
