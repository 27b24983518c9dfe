/** `POST /auth/login`: credentials in, a bearer token and the user's details out. */
module AuthEndpoint {
  import opened Wrappers
  import opened Http
  import opened UserModel
  import opened Database
  import CrudUser

  /** The login body; `username` carries the email. */
  datatype LoginRequest = LoginRequest(username: string, password: string)

  /** The success body: the token, its type, and four of the user's own fields. */
  datatype TokenWithUserDetails = TokenWithUserDetails(
    accessToken: string,
    tokenType: string,
    userType: UserType,
    name: string,
    email: string,
    document: string)

  const BearerTokenType := "bearer"

  /** The single refusal for an unknown email and for a wrong password alike. */
  const IncorrectCredentials :=
    HttpError(StatusUnauthorized, "Incorrect email or password", [Header("WWW-Authenticate", "Bearer")])

  /** `t` is the body issued to `u`: a token whose subject is `u`'s key, type "bearer", `u`'s own fields. */
  predicate IssuedTo(t: TokenWithUserDetails, u: User, createAccessToken: int -> string) {
    && t.accessToken == createAccessToken(u.id)
    && t.tokenType == BearerTokenType
    && t.userType == u.data.userType
    && t.name == u.data.name
    && t.email == u.data.email
    && t.document == u.data.document
  }

  /**
   * Authenticates `username`/`password`; 401 when that fails, otherwise a
   * token for the user. The store is never changed.
   */
  function Login(db: Store, form: LoginRequest, verify: (string, string) -> bool,
                 createAccessToken: int -> string)
    : (r: Reply<Store, TokenWithUserDetails>)
    ensures r.state == db
    ensures r.response.Failure? <==> CrudUser.Authenticate(db, form.username, form.password, verify).None?
    ensures r.response.Failure? ==> r.response.error == IncorrectCredentials
    ensures r.response.Success? ==>
              && r.response.statusCode == StatusOk
              && IssuedTo(r.response.body, CrudUser.Authenticate(db, form.username, form.password, verify).value,
                          createAccessToken)
  {
    match CrudUser.Authenticate(db, form.username, form.password, verify)
    case None => Reply(db, Failure(IncorrectCredentials))
    case Some(user) =>
      var token := createAccessToken(user.id);
      Reply(db, Success(StatusOk, TokenWithUserDetails(token, BearerTokenType, user.data.userType, user.data.name,
                                                       user.data.email, user.data.document)))
  }

  /**
   * An unknown email and a known email with a wrong password get the very
   * same reply, so a client cannot tell which emails are registered.
   */
  lemma UnknownEmailAndWrongPasswordLookAlike(db: Store, unknown: LoginRequest, wrong: LoginRequest,
                                              verify: (string, string) -> bool, createAccessToken: int -> string)
    requires Valid(db)
    requires !EmailTaken(db.users, unknown.username)
    requires forall k :: 0 <= k < |db.users| && db.users[k].data.email == wrong.username
                         ==> !verify(wrong.password, db.users[k].data.hashedPassword)
    ensures Login(db, unknown, verify, createAccessToken) == Login(db, wrong, verify, createAccessToken)
    ensures Login(db, unknown, verify, createAccessToken) == Reply(db, Failure(IncorrectCredentials))
  {
    CrudUser.AuthenticateSucceedsIff(db, wrong.username, wrong.password, verify);
  }

  /**
   * In a valid store, login succeeds exactly for a stored user's email with
   * a password `verify` accepts, and then the token is issued to that user.
   */
  lemma LoginSucceedsIff(db: Store, form: LoginRequest, verify: (string, string) -> bool,
                         createAccessToken: int -> string)
    requires Valid(db)
    ensures Login(db, form, verify, createAccessToken).response.Success?
            <==> exists k :: 0 <= k < |db.users| && db.users[k].data.email == form.username
                             && verify(form.password, db.users[k].data.hashedPassword)
    ensures forall k :: 0 <= k < |db.users| && db.users[k].data.email == form.username
                        && verify(form.password, db.users[k].data.hashedPassword)
                        ==> Login(db, form, verify, createAccessToken).response.Success?
                            && IssuedTo(Login(db, form, verify, createAccessToken).response.body, db.users[k],
                                        createAccessToken)
  {
    CrudUser.AuthenticateSucceedsIff(db, form.username, form.password, verify);
    forall k | 0 <= k < |db.users| && db.users[k].data.email == form.username
               && verify(form.password, db.users[k].data.hashedPassword)
      ensures Login(db, form, verify, createAccessToken).response.Success?
              && IssuedTo(Login(db, form, verify, createAccessToken).response.body, db.users[k], createAccessToken)
    {
      CrudUser.AuthenticateAcceptsHolder(db, k, form.password, verify);
    }
  }
}
