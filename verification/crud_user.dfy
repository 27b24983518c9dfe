/**
 * User data access: lookup by email, insertion with a hashed password, and
 * credential checking. Hashing and verification are parameters: the model
 * assumes nothing about them.
 */
module CrudUser {
  import opened Wrappers
  import opened Scalars
  import opened UserModel
  import opened Database
  import opened UserSchemas

  /** The first user (in insertion order) whose email is `email`, or None when no user has it. */
  function GetByEmail(db: Store, email: string): (r: Option<User>)
    ensures r.Some? ==> r.value in db.users && r.value.data.email == email
    ensures r.None? <==> !EmailTaken(db.users, email)
  {
    FirstWithEmail(db.users, email)
  }

  /**
   * Inserting a user built from the request, with the password replaced by
   * `hash(password)`. The database refuses an email already stored.
   */
  function Create(db: Store, objIn: UserCreate, hash: string -> string, now: Timestamp)
    : (r: Result<Inserted<User>, DbError>)
    ensures r.Ok? <==> !EmailTaken(db.users, objIn.email)
    ensures r.Err? ==> r.error == UniqueViolation
    ensures r.Ok? ==> r.value.row.data.hashedPassword == hash(objIn.password)
    ensures r.Ok? ==> CopiedFrom(r.value.row.data, objIn)
    ensures r.Ok? ==> r.value.row.id == db.nextUserId && r.value.row.createdAt == now
    ensures r.Ok? ==> r.value.store.users == db.users + [r.value.row]
    ensures r.Ok? ==> r.value.store.collections == db.collections
                      && r.value.store.cooperatives == db.cooperatives
  {
    var d := UserData(objIn.email, hash(objIn.password), objIn.name, objIn.userType, objIn.address,
                      objIn.phone, objIn.document);
    InsertUser(db, d, now)
  }

  /**
   * The user with this email when `verify` accepts the password against its
   * stored hash; None when the email is unknown or the password is wrong.
   */
  function Authenticate(db: Store, email: string, password: string, verify: (string, string) -> bool)
    : (r: Option<User>)
    ensures !EmailTaken(db.users, email) ==> r.None?
    ensures r.Some? ==> r.value in db.users && r.value.data.email == email
                        && verify(password, r.value.data.hashedPassword)
    ensures GetByEmail(db, email).Some? && !verify(password, GetByEmail(db, email).value.data.hashedPassword)
            ==> r.None?
  {
    match GetByEmail(db, email)
    case None => None
    case Some(user) =>
      if !verify(password, user.data.hashedPassword) then None
      else Some(user)
  }

  /** In a valid store, a stored user whose password verifies is always the one authenticated. */
  lemma AuthenticateAcceptsHolder(db: Store, k: int, password: string, verify: (string, string) -> bool)
    requires Valid(db)
    requires 0 <= k < |db.users|
    requires verify(password, db.users[k].data.hashedPassword)
    ensures Authenticate(db, db.users[k].data.email, password, verify) == Some(db.users[k])
  {
    FirstWithEmailIsTheHolder(db.users, k);
  }

  /**
   * In a valid store, authentication succeeds exactly when some stored user
   * has the email and a password `verify` accepts.
   */
  lemma AuthenticateSucceedsIff(db: Store, email: string, password: string, verify: (string, string) -> bool)
    requires Valid(db)
    ensures Authenticate(db, email, password, verify).Some?
            <==> exists k :: 0 <= k < |db.users| && db.users[k].data.email == email
                             && verify(password, db.users[k].data.hashedPassword)
  {
    if k :| 0 <= k < |db.users| && db.users[k].data.email == email
            && verify(password, db.users[k].data.hashedPassword) {
      AuthenticateAcceptsHolder(db, k, password, verify);
    }
  }
}
