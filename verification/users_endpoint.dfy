/** `POST /users/`: registration with a duplicate-email check before the insert. */
module UsersEndpoint {
  import opened Wrappers
  import opened Scalars
  import opened Http
  import opened UserModel
  import opened Database
  import opened UserSchemas
  import CrudUser

  const EmailAlreadyRegistered := HttpError(StatusBadRequest, "Email already registered", [])

  /**
   * Registers a user: 400 when the email is already stored, otherwise the
   * user is inserted and returned with status 201.
   */
  function CreateUser(db: Store, userIn: UserCreate, hash: string -> string, now: Timestamp)
    : (r: Reply<Store, UserOut>)
    ensures EmailTaken(db.users, userIn.email) ==> r == Reply(db, Failure(EmailAlreadyRegistered))
    ensures !EmailTaken(db.users, userIn.email) ==>
              && r.response.Success?
              && r.response.statusCode == StatusCreated
              && |r.state.users| == |db.users| + 1
              && r.state.users[..|db.users|] == db.users
              && r.state.users[|db.users|].data.hashedPassword == hash(userIn.password)
              && CopiedFrom(r.state.users[|db.users|].data, userIn)
              && r.response.body == ToUserOut(r.state.users[|db.users|])
              && r.state.collections == db.collections
              && r.state.cooperatives == db.cooperatives
  {
    match CrudUser.GetByEmail(db, userIn.email)
    case Some(_) => Reply(db, Failure(EmailAlreadyRegistered))
    case None =>
      match CrudUser.Create(db, userIn, hash, now)
      case Ok(ins) => Reply(ins.store, Success(StatusCreated, ToUserOut(ins.row)))
      case Err(_) => Reply(db, Failure(InternalServerError))
  }

  /** Registration keeps every email in the store unique. */
  lemma CreateUserKeepsEmailsUnique(db: Store, userIn: UserCreate, hash: string -> string, now: Timestamp)
    requires UniqueEmails(db.users)
    ensures UniqueEmails(CreateUser(db, userIn, hash, now).state.users)
  {
    var users' := CreateUser(db, userIn, hash, now).state.users;
    if !EmailTaken(db.users, userIn.email) {
      forall i, j | 0 <= i < j < |users'|
        ensures users'[i].data.email != users'[j].data.email
      {
        assert users'[i] == db.users[i];
        if j < |db.users| {
          assert users'[j] == db.users[j];
        } else {
          assert users'[j].data.email == userIn.email;
        }
      }
    }
  }

  /** Registration preserves the whole store invariant. */
  lemma CreateUserPreservesValid(db: Store, userIn: UserCreate, hash: string -> string, now: Timestamp)
    requires Valid(db)
    ensures Valid(CreateUser(db, userIn, hash, now).state)
  {
    if !EmailTaken(db.users, userIn.email) {
      var d := UserData(userIn.email, hash(userIn.password), userIn.name, userIn.userType, userIn.address,
                        userIn.phone, userIn.document);
      InsertUserPreservesValid(db, d, now);
    }
  }

  /** Registering the same email twice: the second attempt is refused and the store stays as the first left it. */
  lemma SecondRegistrationRefused(db: Store, first: UserCreate, second: UserCreate, hash: string -> string,
                                  now: Timestamp, later: Timestamp)
    requires !EmailTaken(db.users, first.email)
    requires second.email == first.email
    ensures var db' := CreateUser(db, first, hash, now).state;
            CreateUser(db', second, hash, later) == Reply(db', Failure(EmailAlreadyRegistered))
  {
    var db' := CreateUser(db, first, hash, now).state;
    assert db'.users[|db.users|].data.email == second.email;
  }

  /** On a fresh database the first registration succeeds and the new user gets key 1. */
  lemma FirstRegistrationGetsKeyOne(userIn: UserCreate, hash: string -> string, now: Timestamp)
    ensures var r := CreateUser(Empty, userIn, hash, now);
            r.response.Success? && r.response.statusCode == StatusCreated && r.response.body.id == 1
            && r.response.body.email == userIn.email
  {
  }
}
