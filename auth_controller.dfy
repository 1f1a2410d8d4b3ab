/** The auth controller: turns what the account service reports into the
    response envelope and the claims of the issued token. Token issuance is
    the parameter `sign`; what the service does with the password is not
    part of this model. */
module AuthController {
  import opened Wrappers
  import opened Envelope

  /** The user record the account service hands back. */
  datatype Account = Account(id: string, email: string, name: string, title: string, avatar: string)

  /** `registerUser` either returns the new user or throws. */
  datatype RegisterOutcome = Registered(user: Account) | RegisterThrew(message: string)

  /** `loginUser` returns the user, returns null, or throws. */
  datatype LoginOutcome = LoggedIn(user: Account) | NoMatch | LoginThrew(message: string)

  /** The payload handed to token issuance. */
  datatype Claims = Claims(userId: string, email: string, name: string, title: string, avatar: string)

  type Signer = Claims -> string

  /** The claims `register` signs: `title` is filled from the avatar. */
  function RegisterClaims(u: Account): Claims {
    Claims(u.id, u.email, u.name, u.avatar, u.avatar)
  }

  /** The claims `login` signs: `title` is the user's title. */
  function LoginClaims(u: Account): Claims {
    Claims(u.id, u.email, u.name, u.title, u.avatar)
  }

  /** The user object both responses return: `title` is filled from the avatar. */
  function ResponseUser(u: Account): UserView {
    UserView(u.id, u.email, u.name, u.avatar, u.avatar)
  }

  /** `register`: 201 with the user and a token, or 400 with the error. */
  function Register(outcome: RegisterOutcome, sign: Signer): (res: Response)
    ensures res.success <==> res.status == 201
    ensures res.data.Some? <==> res.success
    ensures res.status == 201 || res.status == 400
    ensures outcome.RegisterThrew? ==> res == Caught(400, "Registration failed", outcome.message)
    ensures outcome.Registered? ==>
              && res.message == "User registered successfully"
              && res.data == Some(Session(ResponseUser(outcome.user), sign(RegisterClaims(outcome.user))))
  {
    match outcome
    case RegisterThrew(m) => Caught(400, "Registration failed", m)
    case Registered(u) =>
      Answer(201, "User registered successfully", Some(Session(ResponseUser(u), sign(RegisterClaims(u)))))
  }

  /** `login`: 200 with the user and a token, 401 when the credentials match
      no user, 500 when the service throws. */
  function Login(outcome: LoginOutcome, sign: Signer): (res: Response)
    ensures res.success <==> res.status == 200
    ensures res.data.Some? <==> res.success
    ensures res.status == 200 || res.status == 401 || res.status == 500
    ensures outcome.NoMatch? ==> res == Refusal(401, "Invalid email or password")
    ensures outcome.LoginThrew? ==> res == Caught(500, "Login failed", outcome.message)
    ensures outcome.LoggedIn? ==>
              && res.message == "Login successful"
              && res.data == Some(Session(ResponseUser(outcome.user), sign(LoginClaims(outcome.user))))
  {
    match outcome
    case NoMatch => Refusal(401, "Invalid email or password")
    case LoginThrew(m) => Caught(500, "Login failed", m)
    case LoggedIn(u) =>
      Answer(200, "Login successful", Some(Session(ResponseUser(u), sign(LoginClaims(u)))))
  }

  /** A registered user's title is reported, and signed, as the avatar; the
      id, email, name and avatar are the user's own. */
  lemma RegisterReportsAvatarAsTitle(u: Account, sign: Signer)
    ensures var res := Register(Registered(u), sign);
      && res.status == 201
      && res.data.value.user == UserView(u.id, u.email, u.name, u.avatar, u.avatar)
      && res.data.value.token == sign(Claims(u.id, u.email, u.name, u.avatar, u.avatar))
  {
  }

  /** After a login the token carries the user's title while the body carries
      the avatar in its place: the two disagree exactly when title and avatar
      differ. */
  lemma LoginBodyAndTokenDisagreeOnTitle(u: Account, sign: Signer)
    ensures var res := Login(LoggedIn(u), sign);
      && res.status == 200
      && res.data.value.user.title == u.avatar
      && res.data.value.token == sign(LoginClaims(u))
      && (LoginClaims(u).title == res.data.value.user.title <==> u.title == u.avatar)
  {
  }

  /** A concrete user for whom login's body and token report different titles. */
  lemma LoginTitleMismatchExample(sign: Signer)
    ensures var u := Account("u1", "ann@example.com", "Ann", "Editor", "ann.png");
            Login(LoggedIn(u), sign).data.value.user.title != LoginClaims(u).title
  {
  }

  /** Failures never carry a token, and a failed login says the same thing
      whatever the signer. */
  lemma FailuresIssueNoToken(message: string, sign: Signer, other: Signer)
    ensures Register(RegisterThrew(message), sign).data == None
    ensures Login(NoMatch, sign) == Login(NoMatch, other) && Login(NoMatch, sign).data == None
    ensures Login(LoginThrew(message), sign).data == None
  {
  }

  /** The user object as evidently intended: every field from its own source. */
  function IntendedUser(u: Account): (v: UserView)
    ensures v.title == u.title && v.avatar == u.avatar
    ensures v.id == u.id && v.email == u.email && v.name == u.name
  {
    UserView(u.id, u.email, u.name, u.title, u.avatar)
  }

  /** With the intended user object, the body agrees with login's claims
      field by field, and two accounts get the same body only when they are
      the same account. */
  lemma IntendedUserMatchesLoginClaims(u: Account, w: Account)
    ensures var v := IntendedUser(u); var c := LoginClaims(u);
      v.id == c.userId && v.email == c.email && v.name == c.name && v.title == c.title && v.avatar == c.avatar
    ensures IntendedUser(u) == IntendedUser(w) <==> u == w
  {
  }
}
